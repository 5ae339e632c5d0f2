/**
 The prepend merge moves the logical start of an extent but keeps its physical start, and does not
 correct index keys.  What it leaves in the tree, and why that is never the map extended by the
 new extent.
 */
module ExtentPrepend {
  import opened ExtentNodes
  import opened ExtentPaths
  import opened ExtentMap
  import opened ExtentLeaf
  import opened ExtentEdit
  import opened ExtentInsert

  /** The contents of a subtree with `gone` exchanged for `come`, in the same blocks. */
  ghost predicate SubSwap(d: Disk, d': Disk, p: nat, h: nat, gone: set<Extent>, come: set<Extent>)
    requires h > 0
  {
    && gone <= SubExts(d, p, h)
    && SubExts(d', p, h) == SubExts(d, p, h) - gone + come
    && Sub(d', p, h) == Sub(d, p, h)
  }

  /** The contents of a node with `gone` exchanged for `come`, in the same blocks. */
  ghost predicate NodeSwap(d: Disk, d': Disk, n: Node, h: nat, gone: set<Extent>, come: set<Extent>) {
    && gone <= Exts(d, n, h)
    && Exts(d', n, h) == Exts(d, n, h) - gone + come
    && Blks(d', n, h) == Blks(d, n, h)
  }

  /** Overwriting one block below the i-th child exchanges extents of the node, well formed or not. */
  lemma OverwriteKid(d: Disk, d': Disk, cap: nat, n: Node, h: nat, lo: int, hi: int, i: nat, b: nat, x: Node,
                     gone: set<Extent>, come: set<Extent>)
    requires h > 0 && Good(d, cap, {}, n, h, lo, hi) && i < n.Count() && n.Index?
    requires d' == d[b := x] && b in Sub(d, n.ents[i].ptr, h)
    requires SubSwap(d, d', n.ents[i].ptr, h, gone, come)
    ensures NodeSwap(d, d', n, h, gone, come)
  {
    var p := n.ents[i].ptr;
    KidIsGood(d, cap, {}, n, h, lo, hi, i);
    OverwriteBelow(d, d', cap, n, h, lo, hi, p, b, x);
    assert Rekeyed(n, n, i, n.ents[i].key) by { assert n.ents == n.ents[i := n.ents[i]]; }
    ReplaceKidSets(d, d', cap, {}, n, n, h, lo, hi, i, n.ents[i].key);
    SwapInside(Exts(d, n, h), SubExts(d, p, h), gone, come);
    PutTogether(Blks(d, n, h), Sub(d, p, h));
  }

  lemma OverwriteBelow(d: Disk, d': Disk, cap: nat, n: Node, h: nat, lo: int, hi: int, p: nat, b: nat, x: Node)
    requires h > 0 && Good(d, cap, {}, n, h, lo, hi)
    requires d' == d[b := x] && b in Sub(d, p, h) && Sub(d', p, h) == Sub(d, p, h)
    ensures OnlyBelow(d, d', Blks(d, n, h), p, h)
  {
    BlksOnDisk(d, cap, {}, n, h, lo, hi);
  }

  /** Overwriting the leaf at the end of a path exchanges its extents, at every level of the path. */
  lemma {:induction false} OverwriteUp(d: Disk, d': Disk, cap: nat, root: Node, depth: nat, block: nat, path: seq<Step>,
                                       k: nat, h: nat, x: Node, gone: set<Extent>, come: set<Extent>)
    requires depth > 0 && GoodTree(d, cap, root, depth) && Chain(d, root, block, path, depth)
    requires 0 < k && k + h == depth + 1 && h > 0
    requires d' == d[path[depth].blk := x] && x.Leaf? && NodeAt(d, root, path, depth).Leaf?
    requires gone <= Exts(d, NodeAt(d, root, path, depth), 0)
    requires Exts(d, x, 0) == Exts(d, NodeAt(d, root, path, depth), 0) - gone + come
    ensures SubSwap(d, d', path[k].blk, h, gone, come)
    ensures path[depth].blk in Sub(d, path[k].blk, h)
    decreases h
  {
    var p := path[k].blk;
    if h > 1 {
      OverwriteUp(d, d', cap, root, depth, block, path, k + 1, h - 1, x, gone, come);
      OverwriteStep(d, d', cap, root, depth, block, path, k, h, x, gone, come);
    } else {
      assert path[k].blk in d;
    }
  }

  lemma OverwriteStep(d: Disk, d': Disk, cap: nat, root: Node, depth: nat, block: nat, path: seq<Step>,
                      k: nat, h: nat, x: Node, gone: set<Extent>, come: set<Extent>)
    requires GoodTree(d, cap, root, depth) && Chain(d, root, block, path, depth)
    requires 0 < k && k + h == depth + 1 && h > 1
    requires d' == d[path[depth].blk := x]
    requires SubSwap(d, d', path[k + 1].blk, h - 1, gone, come)
    requires path[depth].blk in Sub(d, path[k + 1].blk, h - 1)
    ensures SubSwap(d, d', path[k].blk, h, gone, come)
    ensures path[depth].blk in Sub(d, path[k].blk, h)
  {
    ChainUp(d, root, block, path, k + 1, depth);
    ChainUp(d, root, block, path, k, depth);
    var n := NodeAt(d, root, path, k);
    var lo, hi := LoAt(d, root, block, path, k, 0), HiAt(d, root, block, path, k, MAX_BLOCKS);
    GoodSubAt(d, cap, {}, root, depth, block, path, k, h, 0, MAX_BLOCKS);
    KidIsGood(d, cap, {}, n, h - 1, lo, hi, path[k].pos);
    OverwriteKid(d, d', cap, n, h - 1, lo, hi, path[k].pos, path[depth].blk, x, gone, come);
    BlocksApart(d, cap, {}, root, depth, block, path, k, depth, 0, MAX_BLOCKS);
    assert d'[path[k].blk] == n;
  }

  /** What overwriting the leaf found leaves in the whole tree. */
  lemma Overwritten(d: Disk, d': Disk, cap: nat, root: Node, root': Node, depth: nat, block: nat, path: seq<Step>,
                    exts: seq<Extent>, gone: set<Extent>, come: set<Extent>)
    requires GoodTree(d, cap, root, depth) && Found(d, root, depth, block, path)
    requires depth == 0 ==> d' == d && root' == root.(exts := exts)
    requires depth > 0 ==> root' == root && d' == d[path[depth].blk := d[path[depth].blk].(exts := exts)]
    requires gone <= Elems(NodeAt(d, root, path, depth).exts)
    requires Elems(exts) == Elems(NodeAt(d, root, path, depth).exts) - gone + come
    ensures gone <= Exts(d, root, depth)
    ensures Exts(d', root', depth) == Exts(d, root, depth) - gone + come
    ensures Blks(d', root', depth) == Blks(d, root, depth)
  {
    if depth > 0 {
      var x := d[path[depth].blk].(exts := exts);
      OverwriteUp(d, d', cap, root, depth, block, path, 1, depth, x, gone, come);
      ChainUp(d, root, block, path, 1, depth);
      OverwriteKid(d, d', cap, root, depth, 0, MAX_BLOCKS, path[0].pos, path[depth].blk, x, gone, come);
    }
  }

  // ---------------------------------------------------------------- the map it leaves

  /** An extent that fits at the end of its path overlaps no extent of the tree. */
  lemma FitsApart(d: Disk, cap: nat, root: Node, depth: nat, path: seq<Step>, e: Extent)
    requires Ready(d, cap, root, depth, path, e)
    ensures Apart1(Exts(d, root, depth), e) && e.End() <= MAX_BLOCKS
  {
    NextInRange(d, cap, root, depth, path, e);
    HiBelow(d, cap, root, depth, e.block, path, depth, 0);
    forall f | f in Exts(d, root, depth)
      ensures f.End() <= e.block || e.End() <= f.block
    {
      NextBoundSplits(d, cap, root, depth, e.block, path, f);
    }
  }

  lemma {:induction false} HiBelow(d: Disk, cap: nat, root: Node, depth: nat, block: nat, path: seq<Step>, k: nat, h: nat)
    requires GoodTree(d, cap, root, depth) && Chain(d, root, block, path, k) && k + h == depth
    ensures HiAt(d, root, block, path, k, MAX_BLOCKS) <= MAX_BLOCKS
    decreases k
  {
    if k > 0 {
      HiBelow(d, cap, root, depth, block, path, k - 1, h + 1);
      HiShrinks(d, cap, {}, root, depth, block, path, k, h, 0, MAX_BLOCKS);
    }
  }

  /** The prepend merge maps the first new block to the physical start of the old extent. */
  lemma PrependedMap(s: set<Extent>, f: Extent, e: Extent)
    requires Disjoint(s) && f in s && Apart1(s, e) && CanPrepend(f, e) && e.Len() > 0
    requires forall x :: x in s ==> x.Len() > 0
    ensures MapOf(s - {f} + {Prepend(f, e)}) != MapOf(s) + ExtentMapOf(e)
  {
    var g := Prepend(f, e);
    var t := s - {f} + {g};
    assert Disjoint(t);
    assert g.Covers(e.block) && e.Covers(e.block);
    MapOfCovered(t, g, e.block);
    assert (MapOf(s) + ExtentMapOf(e))[e.block] == e.start;
  }
}
