/** Growing the tree by one level, in particular while a split is waiting to be linked. */
module ExtentGrow {
  import opened ExtentNodes
  import opened ExtentPaths
  import opened ExtentMap
  import opened ExtentEdit
  import opened ExtentLeaf
  import opened ExtentSplit

  /** The root node moved into a block. */
  function InBlock(root: Node, cap: nat): Node {
    root.(max := cap)
  }

  /** The new root, with the moved one as its only child. */
  function NewRoot(root: Node, nb: nat): Node
    requires root.Count() > 0
  {
    Index([IndexEntry(root.FirstKey(), nb)], ROOT_CAP)
  }

  /** The first step of any path of the grown tree leads to the moved root. */
  lemma GrownPath(d: Disk, cap: nat, root: Node, depth: nat, nb: nat, block: nat, path: seq<Step>, k: nat)
    requires root.Count() > 0 && k > 0
    requires Chain(d[nb := InBlock(root, cap)], NewRoot(root, nb), block, path, k)
    ensures path[1].blk == nb && Chain(d[nb := InBlock(root, cap)], NewRoot(root, nb), block, path, 1)
    ensures HiAt(d[nb := InBlock(root, cap)], NewRoot(root, nb), block, path, 1, MAX_BLOCKS) == MAX_BLOCKS
  {
    ChainUp(d[nb := InBlock(root, cap)], NewRoot(root, nb), block, path, 1, k);
  }

  /** What waited to be linked into a full root waits at level 1 of the grown tree. */
  lemma GrowInFlight(d: Disk, d': Disk, cap: nat, root: Node, depth: nat, block: nat, path: seq<Step>, path': seq<Step>,
                     idx: nat, q: nat, target: set<Extent>, nb: nat)
    requires InFlight(d, cap, root, depth, block, path, 0, depth, idx, q, target)
    requires cap > ROOT_CAP && nb !in Blks(d, root, depth) && nb !in Sub(d, q, depth)
    requires d' == d[nb := InBlock(root, cap)]
    requires Found(d', NewRoot(root, nb), depth + 1, block, path')
    ensures InFlight(d', cap, NewRoot(root, nb), depth + 1, block, path', 1, depth, idx, q, target)
    ensures Blks(d', NewRoot(root, nb), depth + 1) + Sub(d', q, depth) == Blks(d, root, depth) + Sub(d, q, depth) + {nb}
    ensures NodeAt(d', NewRoot(root, nb), path', 1).Count() == root.Count()
  {
    GrowGood(d, cap, root, depth, nb);
    GrowWaiting(d, d', cap, root, depth, block, path, path', idx, q, target, nb);
  }

  lemma GrowWaiting(d: Disk, d': Disk, cap: nat, root: Node, depth: nat, block: nat, path: seq<Step>, path': seq<Step>,
                    idx: nat, q: nat, target: set<Extent>, nb: nat)
    requires InFlight(d, cap, root, depth, block, path, 0, depth, idx, q, target)
    requires cap > ROOT_CAP && nb !in Blks(d, root, depth) && nb !in Sub(d, q, depth)
    requires d' == d[nb := InBlock(root, cap)]
    requires Found(d', NewRoot(root, nb), depth + 1, block, path')
    ensures path'[1].blk == nb && Chain(d', NewRoot(root, nb), block, path', 1)
    ensures Chosen(root.ents, path'[1].pos, block)
    ensures Waiting(d', cap, InBlock(root, cap), depth, HiAt(d', NewRoot(root, nb), block, path', 1, MAX_BLOCKS),
                    path'[1].pos, idx, q)
    ensures Sub(d', q, depth) == Sub(d, q, depth) && SubExts(d', q, depth) == SubExts(d, q, depth)
  {
    var i, moved := path[0].pos, InBlock(root, cap);
    GrownPath(d, cap, root, depth, nb, block, path', depth + 1);
    ChainUp(d', NewRoot(root, nb), block, path', 2, depth + 1);
    assert Link(moved, block, path'[1].pos, path'[2].blk);
    ChosenUnique(root.ents, i, path'[1].pos, block);
    var hi := Bound(root.ents, i + 1, MAX_BLOCKS);
    KidIsGood(d, cap, {}, root, depth, 0, MAX_BLOCKS, i);
    WriteElsewhereSub(d, cap, {}, root.ents[i].ptr, depth, root.ents[i].key, idx, nb, moved);
    WriteElsewhereSub(d, cap, {}, q, depth, idx, hi, nb, moved);
    GrowGood(d, cap, root, depth, nb);
  }

  /** An extent that fits into a full root leaf fits into the moved leaf, which has room. */
  lemma GrowFits(d: Disk, d': Disk, cap: nat, root: Node, path: seq<Step>, path': seq<Step>, e: Extent, nb: nat)
    requires GoodTree(d, cap, root, 0) && cap > ROOT_CAP && root.Count() == ROOT_CAP
    requires Found(d, root, 0, e.block, path) && Fits(d, root, 0, path, e)
    requires d' == d[nb := InBlock(root, cap)]
    requires Found(d', NewRoot(root, nb), 1, e.block, path')
    ensures GoodTree(d', cap, NewRoot(root, nb), 1) && Fits(d', NewRoot(root, nb), 1, path', e)
    ensures NodeAt(d', NewRoot(root, nb), path', 1) == InBlock(root, cap) && path'[1].pos == path[0].pos
    ensures Exts(d', NewRoot(root, nb), 1) == Exts(d, root, 0)
    ensures Blks(d', NewRoot(root, nb), 1) == {nb} && Blks(d, root, 0) == {}
  {
    GrowGood(d, cap, root, 0, nb);
    GrownPath(d, cap, root, 0, nb, e.block, path', 1);
    ChosenExtUnique(root.exts, path[0].pos, path'[1].pos, e.block);
  }
}
