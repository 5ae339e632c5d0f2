/** Searching the extent tree: binary search in a node, descent, and block lookup. */
module ExtentLookup {
  import opened ExtentNodes
  import opened ExtentPaths
  import opened ExtentMap
  import opened Volumes

  /** Binary search among index entries; the first key is never compared. */
  method BinSearchIdx(ents: seq<IndexEntry>, block: nat) returns (pos: nat)
    requires |ents| > 0
    requires forall i, j :: 0 <= i < j < |ents| ==> ents[i].key < ents[j].key
    ensures Chosen(ents, pos, block)
  {
    var l, r := 1, |ents| - 1;
    while l <= r
      invariant 1 <= l <= r + 2 && r < |ents| && l <= |ents|
      invariant forall j :: 0 < j < l ==> ents[j].key <= block
      invariant forall j :: r < j < |ents| ==> block < ents[j].key
      decreases r - l
    {
      var m := l + (r - l) / 2;
      if block < ents[m].key {
        r := m - 1;
      } else {
        l := m + 1;
      }
    }
    pos := l - 1;
  }

  /** Binary search among the extents of a leaf. */
  method BinSearch(exts: seq<Extent>, block: nat) returns (pos: nat)
    requires |exts| > 0
    requires forall i, j :: 0 <= i < j < |exts| ==> exts[i].block < exts[j].block
    ensures ChosenExt(exts, pos, block)
  {
    var l, r := 1, |exts| - 1;
    while l <= r
      invariant 1 <= l <= r + 2 && r < |exts| && l <= |exts|
      invariant forall j :: 0 < j < l ==> exts[j].block <= block
      invariant forall j :: r < j < |exts| ==> block < exts[j].block
      decreases r - l
    {
      var m := l + (r - l) / 2;
      if block < exts[m].block {
        r := m - 1;
      } else {
        l := m + 1;
      }
    }
    pos := l - 1;
  }

  /** Walks down from the root to the leaf responsible for `block`, recording the path. */
  method FindExtent(vol: Volume, inode: Inode, block: nat)
    returns (path: seq<Step>)
    requires GoodTree(vol.disk, vol.cap, inode.root, inode.depth)
    ensures Found(vol.disk, inode.root, inode.depth, block, path)
  {
    ghost var d, root, depth := vol.disk, inode.root, inode.depth;
    var i, n := inode.depth, inode.root;
    path := [];
    var blk := 0;
    while i > 0
      invariant 0 <= i <= depth && |path| == depth - i
      invariant forall x :: Chain(d, root, block, path + [Step(blk, x)], depth - i)
      invariant n == NodeAt(d, root, path + [Step(blk, 0)], depth - i)
      invariant n.Count() > 0 || depth == 0
    {
      NodeOnTheWay(d, vol.cap, root, depth, block, path + [Step(blk, 0)], depth - i, i);
      var pos := BinSearchIdx(n.ents, block);
      StepDown(d, vol.cap, root, depth, block, path, blk, pos, depth - i, i);
      path := path + [Step(blk, pos)];
      blk := n.ents[pos].ptr;
      i := i - 1;
      n := vol.disk[blk];
    }
    NodeOnTheWay(d, vol.cap, root, depth, block, path + [Step(blk, 0)], depth, 0);
    var pos := 0;
    if |n.exts| > 0 {
      pos := BinSearch(n.exts, block);
    }
    path := path + [Step(blk, pos)];
  }

  /** A node met while descending is of the right kind and sorted. */
  lemma NodeOnTheWay(d: Disk, cap: nat, root: Node, depth: nat, block: nat, path: seq<Step>, k: nat, h: nat)
    requires GoodTree(d, cap, root, depth)
    requires Chain(d, root, block, path, k) && k + h == depth
    ensures var n := NodeAt(d, root, path, k);
            if h == 0 then
              n.Leaf? && forall i, j :: 0 <= i < j < |n.exts| ==> n.exts[i].block < n.exts[j].block
            else
              n.Index? && forall i, j :: 0 <= i < j < |n.ents| ==> n.ents[i].key < n.ents[j].key
  {
    GoodAt(d, cap, {}, root, depth, block, path, k, h, 0, MAX_BLOCKS);
  }

  /** Following the chosen entry extends the path by a non-empty node. */
  lemma StepDown(d: Disk, cap: nat, root: Node, depth: nat, block: nat, path: seq<Step>, blk: nat, pos: nat,
                 k: nat, h: nat)
    requires GoodTree(d, cap, root, depth)
    requires |path| == k && k + h == depth && h > 0
    requires forall x :: Chain(d, root, block, path + [Step(blk, x)], k)
    requires k > 0 ==> blk in d
    requires NodeAt(d, root, path + [Step(blk, 0)], k).Index?
    requires Chosen(NodeAt(d, root, path + [Step(blk, 0)], k).ents, pos, block)
    ensures var ptr := NodeAt(d, root, path + [Step(blk, 0)], k).ents[pos].ptr;
            && ptr in d && d[ptr].Count() > 0
            && (forall x :: Chain(d, root, block, path + [Step(blk, pos)] + [Step(ptr, x)], k + 1))
  {
    var q := path + [Step(blk, pos)];
    var n := NodeAt(d, root, q, k);
    assert Chain(d, root, block, q, k);
    GoodAt(d, cap, {}, root, depth, block, q, k, h, 0, MAX_BLOCKS);
    KidIsGood(d, cap, {}, n, h, LoAt(d, root, block, q, k, 0), HiAt(d, root, block, q, k, MAX_BLOCKS), pos);
    forall x ensures Chain(d, root, block, q + [Step(n.ents[pos].ptr, x)], k + 1) {
      ExtendChain(d, root, block, q, n.ents[pos].ptr, k, x);
    }
  }

  lemma ExtendChain(d: Disk, root: Node, block: nat, path: seq<Step>, blk: nat, k: nat, x: nat)
    requires |path| == k + 1 && Chain(d, root, block, path, k)
    requires k > 0 ==> path[k].blk in d
    requires Link(NodeAt(d, root, path, k), block, path[k].pos, blk) && blk in d
    ensures Chain(d, root, block, path + [Step(blk, x)], k + 1)
  {
    PrefixChain(d, root, block, path, path + [Step(blk, x)], k);
  }

  lemma {:induction false} PrefixChain(d: Disk, root: Node, block: nat, path: seq<Step>, path': seq<Step>, k: nat)
    requires Chain(d, root, block, path, k)
    requires k < |path'| && forall j :: 0 <= j <= k ==> path'[j] == path[j]
    ensures Chain(d, root, block, path', k)
    decreases k
  {
    if k > 0 {
      PrefixChain(d, root, block, path, path', k - 1);
    }
  }

  // ---------------------------------------------------------------- block lookup

  ghost function TreeMap(vol: Volume, inode: Inode): map<nat, nat>
    reads vol, inode
  {
    MapOf(Exts(vol.disk, inode.root, inode.depth))
  }

  /**
   What the search path says about a block: no blocks when `iblock` is unmapped, else a run of
   blocks that the tree maps in order, starting at `pblk`.
   */
  method MappedRun(vol: Volume, inode: Inode, path: seq<Step>, iblock: nat, maxBlocks: nat) returns (len: nat, pblk: nat)
    requires GoodTree(vol.disk, vol.cap, inode.root, inode.depth)
    requires Found(vol.disk, inode.root, inode.depth, iblock, path)
    requires iblock < MAX_BLOCKS
    ensures maxBlocks > 0 ==> (len == 0 <==> iblock !in TreeMap(vol, inode))
    ensures len <= maxBlocks
    ensures iblock in TreeMap(vol, inode) ==>
              exists e :: e in Exts(vol.disk, inode.root, inode.depth) && e.block <= iblock < e.End()
                          && len == (if maxBlocks < e.End() - iblock then maxBlocks else e.End() - iblock)
                          && pblk == e.start + (iblock - e.block)
    ensures forall l: nat :: iblock <= l < iblock + len ==>
                               l in TreeMap(vol, inode) && TreeMap(vol, inode)[l] == pblk + (l - iblock)
  {
    ghost var d, root, depth := vol.disk, inode.root, inode.depth;
    len, pblk := 0, 0;
    var leaf := NodeAt(vol.disk, inode.root, path, inode.depth);
    if |leaf.exts| > 0 {
      var ex := leaf.exts[path[inode.depth].pos];
      if ex.block <= iblock <= ex.block + ex.Len() - 1 {
        pblk := iblock - ex.block + ex.start;
        len := ex.Len() - (iblock - ex.block);
        if len > maxBlocks {
          len := maxBlocks;
        }
      }
      FoundRun(d, vol.cap, root, depth, iblock, path, ex);
    }
    FoundNothing(d, vol.cap, root, depth, iblock, path);
  }

  lemma FoundRun(d: Disk, cap: nat, root: Node, depth: nat, iblock: nat, path: seq<Step>, ex: Extent)
    requires GoodTree(d, cap, root, depth) && iblock < MAX_BLOCKS
    requires Found(d, root, depth, iblock, path)
    requires |NodeAt(d, root, path, depth).exts| > 0 && ex == NodeAt(d, root, path, depth).exts[path[depth].pos]
    ensures ex in Exts(d, root, depth)
    ensures forall l: nat :: ex.Covers(l) ==>
                          l in MapOf(Exts(d, root, depth)) && MapOf(Exts(d, root, depth))[l] == ex.start + (l - ex.block)
  {
    GoodAt(d, cap, {}, root, depth, iblock, path, depth, 0, 0, MAX_BLOCKS);
    assert ex in Exts(d, NodeAt(d, root, path, depth), 0);
    GoodDisjoint(d, cap, {}, root, depth, 0, MAX_BLOCKS);
    forall l: nat | ex.Covers(l)
      ensures l in MapOf(Exts(d, root, depth)) && MapOf(Exts(d, root, depth))[l] == ex.start + (l - ex.block)
    {
      MapOfCovered(Exts(d, root, depth), ex, l);
    }
  }

  lemma FoundNothing(d: Disk, cap: nat, root: Node, depth: nat, iblock: nat, path: seq<Step>)
    requires GoodTree(d, cap, root, depth) && iblock < MAX_BLOCKS
    requires Found(d, root, depth, iblock, path)
    ensures iblock in MapOf(Exts(d, root, depth)) ==>
              |NodeAt(d, root, path, depth).exts| > 0 && NodeAt(d, root, path, depth).exts[path[depth].pos].Covers(iblock)
  {
    if iblock in MapOf(Exts(d, root, depth)) {
      var e := MapOfDomain(Exts(d, root, depth), iblock);
      FoundCovers(d, cap, root, depth, iblock, path, e);
    }
  }

  /** The next block that may be allocated, found by walking up the path. */
  method NextAllocatedBlock(vol: Volume, inode: Inode, path: seq<Step>, ghost block: nat) returns (next: nat)
    requires GoodTree(vol.disk, vol.cap, inode.root, inode.depth)
    requires Found(vol.disk, inode.root, inode.depth, block, path)
    ensures next == NextBound(vol.disk, inode.root, inode.depth, block, path)
  {
    ghost var d, root := vol.disk, inode.root;
    var depth := inode.depth;
    var leaf := NodeAt(vol.disk, inode.root, path, depth);
    if depth == 0 && |leaf.exts| == 0 {
      return MAX_BLOCKS;
    }
    if |leaf.exts| > 0 && path[depth].pos + 1 < |leaf.exts| {
      return leaf.exts[path[depth].pos + 1].block;
    }
    var k: nat := depth;
    while k > 0
      invariant k <= depth && Chain(d, root, block, path, k)
      invariant HiAt(d, root, block, path, k, MAX_BLOCKS) == HiAt(d, root, block, path, depth, MAX_BLOCKS)
    {
      k := k - 1;
      var n := NodeAt(vol.disk, inode.root, path, k);
      if path[k].pos + 1 < |n.ents| {
        return n.ents[path[k].pos + 1].key;
      }
    }
    return MAX_BLOCKS;
  }

  /**
   For an unmapped block, the blocks up to the next allocated one are all unmapped exactly
   when the extent found does not start above the block.
   */
  lemma GapIsFree(d: Disk, cap: nat, root: Node, depth: nat, iblock: nat, path: seq<Step>)
    requires GoodTree(d, cap, root, depth) && iblock < MAX_BLOCKS
    requires Found(d, root, depth, iblock, path)
    requires iblock !in MapOf(Exts(d, root, depth))
    ensures (forall l :: iblock <= l < NextBound(d, root, depth, iblock, path) ==> l !in MapOf(Exts(d, root, depth)))
       <==> (|NodeAt(d, root, path, depth).exts| == 0
             || NodeAt(d, root, path, depth).exts[path[depth].pos].block <= iblock)
  {
    var leaf, pos, m := NodeAt(d, root, path, depth), path[depth].pos, MapOf(Exts(d, root, depth));
    var next := NextBound(d, root, depth, iblock, path);
    GoodAt(d, cap, {}, root, depth, iblock, path, depth, 0, 0, MAX_BLOCKS);
    if |leaf.exts| > 0 {
      FoundRun(d, cap, root, depth, iblock, path, leaf.exts[pos]);
      assert leaf.exts[pos].Covers(leaf.exts[pos].block);
      assert leaf.exts[pos].block < next;
    }
    if |leaf.exts| == 0 || leaf.exts[pos].block <= iblock {
      forall l | iblock <= l < next
        ensures l !in m
      {
        if l in m {
          var e := MapOfDomain(Exts(d, root, depth), l);
          NextBoundSplits(d, cap, root, depth, iblock, path, e);
        }
      }
    }
  }

  /** A file with one extent, from block 5 on: the search for block 0 finds it, and the gap up to the next bound is not free. */
  lemma GapExample(d: Disk)
    ensures var root, path := Leaf([Extent(5, 1, 11)], ROOT_CAP), [Step(0, 0)];
            && GoodTree(d, ROOT_CAP + 1, root, 0) && Found(d, root, 0, 0, path)
            && 0 !in MapOf(Exts(d, root, 0)) && 5 in MapOf(Exts(d, root, 0)) && 5 < NextBound(d, root, 0, 0, path)
  {
    var e := Extent(5, 1, 11);
    RootMap(d, e);
    assert e.Covers(5) && forall l: nat :: e.Covers(l) ==> l == 5;
    FoundAtFive(d);
  }

  lemma FoundAtFive(d: Disk)
    ensures var root, path := Leaf([Extent(5, 1, 11)], ROOT_CAP), [Step(0, 0)];
            GoodTree(d, ROOT_CAP + 1, root, 0) && Found(d, root, 0, 0, path) && NextBound(d, root, 0, 0, path) == MAX_BLOCKS
  {
  }
}
