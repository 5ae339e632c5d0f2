/**
 Correcting the index keys above a leaf whose first extent changed: the new first key replaces
 the key of the leaf's entry, and of each entry above as long as the entry below is the first
 of its node.
 */
module ExtentCorrect {
  import opened ExtentNodes
  import opened ExtentPaths
  import opened ExtentEdit

  function Min(a: int, b: int): int {
    if a < b then a else b
  }

  /** The node with the key of entry `i` replaced. */
  function Rekey(n: Node, i: nat, key: nat): Node
    requires n.Index? && i < |n.ents|
  {
    n.(ents := n.ents[i := IndexEntry(key, n.ents[i].ptr)])
  }

  /** The node at level `k` after rekeying. */
  function RekeyedAt(d: Disk, root: Node, path: seq<Step>, k: nat, border: nat): Node
    requires k < |path| && (k == 0 || path[k].blk in d)
    requires NodeAt(d, root, path, k).Index? && path[k].pos < |NodeAt(d, root, path, k).ents|
  {
    Rekey(NodeAt(d, root, path, k), path[k].pos, border)
  }

  /**
   On disk `d` the node `nk` stands at level `k` of the path in place of the one of the tree
   (d0, root0); below it the leaf has exchanged the extents `gone` for `come`, and the keys are
   right down from here, with `border` as the smallest key when the path goes down leftmost.
   */
  ghost predicate Lifted(d0: Disk, d: Disk, cap: nat, root0: Node, nk: Node, depth: nat, block: nat, path: seq<Step>,
                         k: nat, h: nat, border: nat, gone: set<Extent>, come: set<Extent>)
    requires Chain(d0, root0, block, path, k)
  {
    && nk.Count() > 0 && nk.max == NodeAt(d0, root0, path, k).max
    && (path[k].pos == 0 ==> nk.FirstKey() == border)
    && Good(d, cap, {}, nk, h, Min(LoAt(d0, root0, block, path, k, 0), border), HiAt(d0, root0, block, path, k, MAX_BLOCKS))
    && (k > 0 ==> path[k].blk in d && d[path[k].blk] == nk
                  && Agree(d0, d, Blks(d0, root0, depth) - Sub(d0, path[k].blk, h + 1)))
    && Swapped(d0, d, NodeAt(d0, root0, path, k), nk, h, gone, come)
  }

  ghost predicate Swapped(d0: Disk, d: Disk, n0: Node, n: Node, h: nat, gone: set<Extent>, come: set<Extent>) {
    && Blks(d, n, h) == Blks(d0, n0, h)
    && gone <= Exts(d0, n0, h)
    && Exts(d, n, h) == Exts(d0, n0, h) - gone + come
  }

  /** The new smallest key is the block searched for, or not below the range of level `k`. */
  ghost predicate BorderOk(d: Disk, root: Node, block: nat, path: seq<Step>, k: nat, border: nat)
    requires Chain(d, root, block, path, k)
  {
    border == block || (border < block && border >= LoAt(d, root, block, path, k, 0))
  }

  /** The child below level `k` is well formed from `border` on, and nothing else below changed. */
  lemma LiftKid(d0: Disk, d: Disk, d': Disk, cap: nat, root0: Node, child: Node, depth: nat, block: nat,
                path: seq<Step>, k: nat, h: nat, border: nat, gone: set<Extent>, come: set<Extent>, nk: Node)
    requires GoodTree(d0, cap, root0, depth) && h > 0 && k + h == depth
    requires Chain(d0, root0, block, path, k + 1) && path[k + 1].pos == 0
    requires Lifted(d0, d, cap, root0, child, depth, block, path, k + 1, h - 1, border, gone, come)
    requires d' == if k == 0 then d else d[path[k].blk := nk]
    ensures var n0 := NodeAt(d0, root0, path, k);
            && GoodSub(d', cap, {}, path[k + 1].blk, h, border, HiAt(d0, root0, block, path, k + 1, MAX_BLOCKS))
            && border < HiAt(d0, root0, block, path, k + 1, MAX_BLOCKS)
            && Sub(d', path[k + 1].blk, h) == Sub(d0, path[k + 1].blk, h)
            && SubExts(d', path[k + 1].blk, h) == SubExts(d0, path[k + 1].blk, h) - gone + come
            && d'[path[k + 1].blk] == child
  {
    var p, hi := path[k + 1].blk, HiAt(d0, root0, block, path, k + 1, MAX_BLOCKS);
    var lo := Min(LoAt(d0, root0, block, path, k + 1, 0), border);
    GoodSubAt(d0, cap, {}, root0, depth, block, path, k + 1, h, 0, MAX_BLOCKS);
    FirstKeyBelow(d, cap, child, h - 1, lo, hi);
    Raise(d, cap, {}, child, h - 1, lo, hi, border);
    if k > 0 {
      AncestorOutside(d0, cap, {}, root0, depth, block, path, k, k + 1, h, 0, MAX_BLOCKS);
      WriteElsewhere(d, cap, {}, child, h - 1, border, hi, path[k].blk, nk);
    }
  }

  lemma LiftBelow(d0: Disk, d: Disk, d': Disk, cap: nat, root0: Node, depth: nat, block: nat,
                  path: seq<Step>, k: nat, h: nat, nk: Node)
    requires GoodTree(d0, cap, root0, depth) && h > 0 && k + h == depth
    requires Chain(d0, root0, block, path, k + 1)
    requires Agree(d0, d, Blks(d0, root0, depth) - Sub(d0, path[k + 1].blk, h))
    requires d' == if k == 0 then d else d[path[k].blk := nk]
    requires Sub(d', path[k + 1].blk, h) == Sub(d0, path[k + 1].blk, h)
    ensures OnlyBelow(d0, d', Blks(d0, NodeAt(d0, root0, path, k), h), path[k + 1].blk, h)
    ensures k > 0 ==> Agree(d0, d', Blks(d0, root0, depth) - Sub(d0, path[k].blk, h + 1))
  {
    var n0, p := NodeAt(d0, root0, path, k), path[k + 1].blk;
    GoodAt(d0, cap, {}, root0, depth, block, path, k, h, 0, MAX_BLOCKS);
    if k > 0 {
      GoodSubAt(d0, cap, {}, root0, depth, block, path, k, h + 1, 0, MAX_BLOCKS);
    }
    forall b | b in Blks(d0, n0, h) - Sub(d0, p, h)
      ensures b in d0 && b in d' && d'[b] == d0[b]
    {
      assert b in Blks(d0, root0, depth) - Sub(d0, p, h);
    }
    if k > 0 {
      KidIsGood(d0, cap, {}, n0, h, LoAt(d0, root0, block, path, k, 0), HiAt(d0, root0, block, path, k, MAX_BLOCKS),
                path[k].pos);
      forall b | b in Blks(d0, root0, depth) - Sub(d0, path[k].blk, h + 1)
        ensures b in d0 && b in d' && d'[b] == d0[b]
      {
        assert b in Blks(d0, root0, depth) - Sub(d0, p, h);
        assert path[k].blk in Sub(d0, path[k].blk, h + 1);
      }
    }
  }

  /** One step up: the entry taken at level `k` gets `border` as its key. */
  lemma LiftStep(d0: Disk, d: Disk, d': Disk, cap: nat, root0: Node, child: Node, depth: nat, block: nat,
                 path: seq<Step>, k: nat, h: nat, border: nat, gone: set<Extent>, come: set<Extent>)
    requires GoodTree(d0, cap, root0, depth) && h > 0 && k + h == depth
    requires Chain(d0, root0, block, path, k + 1) && path[k + 1].pos == 0
    requires Lifted(d0, d, cap, root0, child, depth, block, path, k + 1, h - 1, border, gone, come)
    requires BorderOk(d0, root0, block, path, k + 1, border)
    requires d' == if k == 0 then d else d[path[k].blk := RekeyedAt(d0, root0, path, k, border)]
    ensures Lifted(d0, d', cap, root0, RekeyedAt(d0, root0, path, k, border), depth, block, path, k, h, border, gone, come)
    ensures BorderOk(d0, root0, block, path, k, border)
    ensures path[k].pos > 0 ==> border >= LoAt(d0, root0, block, path, k, 0)
  {
    var n0, nk, i := NodeAt(d0, root0, path, k), RekeyedAt(d0, root0, path, k, border), path[k].pos;
    var lo, hi := LoAt(d0, root0, block, path, k, 0), HiAt(d0, root0, block, path, k, MAX_BLOCKS);
    LiftKid(d0, d, d', cap, root0, child, depth, block, path, k, h, border, gone, come, nk);
    LiftBelow(d0, d, d', cap, root0, depth, block, path, k, h, nk);
    GoodAt(d0, cap, {}, root0, depth, block, path, k, h, 0, MAX_BLOCKS);
    KidBounds(n0.ents, lo, hi, i);
    ReplaceKidGood(d0, d', cap, {}, n0, nk, h, lo, hi, Min(lo, border), i, border);
    LiftSets(d0, d', cap, n0, nk, h, lo, hi, i, border, gone, come);
  }

  lemma LiftSets(d0: Disk, d: Disk, cap: nat, n0: Node, nk: Node, h: nat, lo: int, hi: int, i: nat, border: nat,
                 gone: set<Extent>, come: set<Extent>)
    requires h > 0 && Good(d0, cap, {}, n0, h, lo, hi) && Rekeyed(n0, nk, i, border)
    requires OnlyBelow(d0, d, Blks(d0, n0, h), n0.ents[i].ptr, h)
    requires gone <= SubExts(d0, n0.ents[i].ptr, h)
    requires Sub(d, n0.ents[i].ptr, h) == Sub(d0, n0.ents[i].ptr, h)
    requires SubExts(d, n0.ents[i].ptr, h) == SubExts(d0, n0.ents[i].ptr, h) - gone + come
    ensures Swapped(d0, d, n0, nk, h, gone, come)
  {
    ReplaceKidSets(d0, d, cap, {}, n0, nk, h, lo, hi, i, border);
    KidIsGood(d0, cap, {}, n0, h, lo, hi, i);
    SwapInside(Exts(d0, n0, h), SubExts(d0, n0.ents[i].ptr, h), gone, come);
  }

  /** When correction stops at level `k`, the whole tree is well formed again. */
  lemma LiftDone(d0: Disk, d: Disk, cap: nat, root0: Node, nk: Node, depth: nat, block: nat,
                 path: seq<Step>, k: nat, h: nat, border: nat, gone: set<Extent>, come: set<Extent>)
    requires GoodTree(d0, cap, root0, depth) && k + h == depth && Chain(d0, root0, block, path, k)
    requires Lifted(d0, d, cap, root0, nk, depth, block, path, k, h, border, gone, come)
    requires k > 0 ==> border >= LoAt(d0, root0, block, path, k, 0)
    ensures var root := if k == 0 then nk else root0;
            GoodTree(d, cap, root, depth) && Swapped(d0, d, root0, root, depth, gone, come)
  {
    if k > 0 {
      LiftDoneInBlock(d0, d, cap, root0, nk, depth, block, path, k, h, border, gone, come);
      LiftDoneSets(d0, d, cap, root0, nk, depth, block, path, k, h, gone, come);
    }
  }

  lemma LiftDoneSets(d0: Disk, d: Disk, cap: nat, root0: Node, nk: Node, depth: nat, block: nat,
                     path: seq<Step>, k: nat, h: nat, gone: set<Extent>, come: set<Extent>)
    requires GoodTree(d0, cap, root0, depth) && 0 < k && k + h == depth && Chain(d0, root0, block, path, k)
    requires path[k].blk in d && d[path[k].blk] == nk
    requires Swapped(d0, d, NodeAt(d0, root0, path, k), nk, h, gone, come)
    requires Exchanged(d0, d, root0, depth, path[k].blk, h + 1)
    ensures Swapped(d0, d, root0, root0, depth, gone, come)
  {
    GoodSubAt(d0, cap, {}, root0, depth, block, path, k, h + 1, 0, MAX_BLOCKS);
    SwappedAll(d0, d, root0, depth, path[k].blk, h, nk, gone, come);
  }

  lemma LiftDoneInBlock(d0: Disk, d: Disk, cap: nat, root0: Node, nk: Node, depth: nat, block: nat,
                        path: seq<Step>, k: nat, h: nat, border: nat, gone: set<Extent>, come: set<Extent>)
    requires GoodTree(d0, cap, root0, depth) && 0 < k && k + h == depth && Chain(d0, root0, block, path, k)
    requires Lifted(d0, d, cap, root0, nk, depth, block, path, k, h, border, gone, come)
    requires border >= LoAt(d0, root0, block, path, k, 0)
    ensures GoodTree(d, cap, root0, depth) && Exchanged(d0, d, root0, depth, path[k].blk, h + 1)
  {
    LiftDoneSub(d0, d, cap, root0, nk, depth, block, path, k, h, border, gone, come);
    ReplaceAt(d0, d, cap, {}, root0, depth, block, path, k, h + 1, 0, MAX_BLOCKS);
  }

  lemma LiftDoneSub(d0: Disk, d: Disk, cap: nat, root0: Node, nk: Node, depth: nat, block: nat,
                    path: seq<Step>, k: nat, h: nat, border: nat, gone: set<Extent>, come: set<Extent>)
    requires GoodTree(d0, cap, root0, depth) && 0 < k && k + h == depth && Chain(d0, root0, block, path, k)
    requires Lifted(d0, d, cap, root0, nk, depth, block, path, k, h, border, gone, come)
    requires border >= LoAt(d0, root0, block, path, k, 0)
    ensures GoodSub(d, cap, {}, path[k].blk, h + 1,
                    LoAt(d0, root0, block, path, k, 0), HiAt(d0, root0, block, path, k, MAX_BLOCKS))
    ensures OnlyBelow(d0, d, Blks(d0, root0, depth), path[k].blk, h + 1)
  {
    GoodSubAt(d0, cap, {}, root0, depth, block, path, k, h + 1, 0, MAX_BLOCKS);
    assert Sub(d, path[k].blk, h + 1) == Sub(d0, path[k].blk, h + 1);
  }

  lemma SwappedAll(d0: Disk, d: Disk, root: Node, depth: nat, p: nat, h: nat, nk: Node,
                   gone: set<Extent>, come: set<Extent>)
    requires p in d0 && p in d && d[p] == nk
    requires Exchanged(d0, d, root, depth, p, h + 1)
    requires Swapped(d0, d, d0[p], nk, h, gone, come)
    requires Sub(d0, p, h + 1) <= Blks(d0, root, depth) && SubExts(d0, p, h + 1) <= Exts(d0, root, depth)
    ensures Swapped(d0, d, root, root, depth, gone, come)
  {
    assert SubExts(d0, p, h + 1) == Exts(d0, d0[p], h);
    SwapInside(Exts(d0, root, depth), Exts(d0, d0[p], h), gone, come);
  }

  // ---------------------------------------------------------------- the path after correction

  /** From level `k` down to the leaf's parent the nodes are rekeyed, above they are the old ones. */
  ghost predicate Corrected(d0: Disk, root0: Node, d: Disk, root: Node, depth: nat, block: nat, path: seq<Step>,
                            k: nat, border: nat)
    requires Chain(d0, root0, block, path, depth)
  {
    && (forall j :: 0 < j <= depth ==> path[j].blk in d0 && path[j].blk in d)
    && (forall j :: 0 <= j < depth ==> CorrectedAt(d0, root0, d, root, block, path, j, k, border))
  }

  ghost predicate CorrectedAt(d0: Disk, root0: Node, d: Disk, root: Node, block: nat, path: seq<Step>,
                              j: nat, k: nat, border: nat)
    requires j < |path| && (j == 0 || (path[j].blk in d0 && path[j].blk in d))
  {
    var n0 := NodeAt(d0, root0, path, j);
    && n0.Index? && path[j].pos < |n0.ents|
    && NodeAt(d, root, path, j) == if j >= k then Rekey(n0, path[j].pos, border) else n0
  }

  /** Rekeying does not change which entries the search takes, nor the upper bounds. */
  lemma {:induction false} CorrectedPath(d0: Disk, root0: Node, d: Disk, root: Node, depth: nat, block: nat,
                                         path: seq<Step>, k: nat, border: nat, m: nat)
    requires Chain(d0, root0, block, path, depth) && m <= depth && border <= block
    requires Corrected(d0, root0, d, root, depth, block, path, k, border)
    ensures Chain(d, root, block, path, m)
    ensures Chain(d0, root0, block, path, m)
    ensures HiAt(d, root, block, path, m, MAX_BLOCKS) == HiAt(d0, root0, block, path, m, MAX_BLOCKS)
    decreases m
  {
    ChainUp(d0, root0, block, path, m, depth);
    if m > 0 {
      CorrectedPath(d0, root0, d, root, depth, block, path, k, border, m - 1);
      assert CorrectedAt(d0, root0, d, root, block, path, m - 1, k, border);
    }
  }

  lemma {:induction false} OnDisk(d: Disk, root: Node, block: nat, path: seq<Step>, k: nat, j: nat)
    requires Chain(d, root, block, path, k) && 0 < j <= k
    ensures path[j].blk in d
    decreases k
  {
    if j < k {
      OnDisk(d, root, block, path, k - 1, j);
    }
  }

  /** A new leaf at the end of the path: no key is corrected yet. */
  lemma CorrectedLeaf(d0: Disk, d: Disk, cap: nat, root: Node, depth: nat, block: nat, path: seq<Step>,
                      border: nat, leaf: Node)
    requires GoodTree(d0, cap, root, depth) && depth > 0 && Chain(d0, root, block, path, depth)
    requires d == d0[path[depth].blk := leaf]
    ensures Corrected(d0, root, d, root, depth, block, path, depth, border)
  {
    forall j | 0 < j <= depth
      ensures path[j].blk in d0 && path[j].blk in d
    {
      OnDisk(d0, root, block, path, depth, j);
    }
    forall j: nat | 0 <= j < depth
      ensures CorrectedAt(d0, root, d, root, block, path, j, depth, border)
    {
      ChainUp(d0, root, block, path, j + 1, depth);
      if j > 0 {
        BlocksApart(d0, cap, {}, root, depth, block, path, j, depth, 0, MAX_BLOCKS);
      }
    }
  }

  /** Rekeying the next level up. */
  lemma CorrectedStep(d0: Disk, root0: Node, d: Disk, root: Node, d': Disk, root': Node, cap: nat, depth: nat,
                      block: nat, path: seq<Step>, k: nat, border: nat)
    requires GoodTree(d0, cap, root0, depth) && Chain(d0, root0, block, path, depth) && 0 < k <= depth
    requires Corrected(d0, root0, d, root, depth, block, path, k, border)
    requires CorrectedAt(d0, root0, d, root, block, path, k - 1, k, border)
    requires k == 1 ==> d' == d && root' == RekeyedAt(d0, root0, path, 0, border)
    requires k > 1 ==> root' == root && d' == d[path[k - 1].blk := RekeyedAt(d0, root0, path, k - 1, border)]
    ensures Corrected(d0, root0, d', root', depth, block, path, k - 1, border)
  {
    var m := k - 1;
    forall j | 0 <= j < depth
      ensures CorrectedAt(d0, root0, d', root', block, path, j, m, border)
    {
      assert CorrectedAt(d0, root0, d, root, block, path, j, k, border);
      if 0 < j < k - 1 {
        ChainUp(d0, root0, block, path, k - 1, depth);
        BlocksApart(d0, cap, {}, root0, depth, block, path, j, k - 1, 0, MAX_BLOCKS);
      } else if 0 < k - 1 < j {
        ChainUp(d0, root0, block, path, j, depth);
        BlocksApart(d0, cap, {}, root0, depth, block, path, k - 1, j, 0, MAX_BLOCKS);
      }
    }
  }

  /** A leftmost leaf with a new content starts the correction. */
  lemma LiftLeaf(d: Disk, d': Disk, cap: nat, root: Node, depth: nat, block: nat, path: seq<Step>,
                 l: seq<Extent>, border: nat)
    requires GoodTree(d, cap, root, depth) && depth > 0 && Chain(d, root, block, path, depth)
    requires NodeAt(d, root, path, depth).Leaf? && path[depth].pos == 0
    requires SortedExts(l, Min(LoAt(d, root, block, path, depth, 0), border), HiAt(d, root, block, path, depth, MAX_BLOCKS))
    requires 0 < |l| <= cap && l[0].block == border
    requires d' == d[path[depth].blk := Leaf(l, cap)]
    ensures Lifted(d, d', cap, root, Leaf(l, cap), depth, block, path, depth, 0, border,
                   Exts(d, NodeAt(d, root, path, depth), 0), Exts(d, Leaf(l, cap), 0))
  {
    GoodSubAt(d, cap, {}, root, depth, block, path, depth, 1, 0, MAX_BLOCKS);
    BlksOnDisk(d, cap, {}, root, depth, 0, MAX_BLOCKS);
    assert path[depth].blk in Sub(d, path[depth].blk, 1);
  }

  /** All blocks but those of the path keep their node. */
  ghost predicate OffPath(d: Disk, d': Disk, path: seq<Step>, depth: nat)
    requires depth < |path|
  {
    forall b {:trigger b in d'} {:trigger d'[b]} ::
      b in d && (forall j :: 0 < j <= depth ==> b != path[j].blk) ==> b in d' && d'[b] == d[b]
  }

  /** The state of a correction that has reached level `k`. */
  ghost predicate Correcting(d0: Disk, root0: Node, d: Disk, root: Node, nk: Node, cap: nat, depth: nat, block: nat,
                             path: seq<Step>, k: nat, h: nat, border: nat, gone: set<Extent>, come: set<Extent>) {
    && k + h == depth && Chain(d0, root0, block, path, depth) && Chain(d0, root0, block, path, k)
    && Lifted(d0, d, cap, root0, nk, depth, block, path, k, h, border, gone, come)
    && BorderOk(d0, root0, block, path, k, border)
    && (k < depth && path[k].pos > 0 ==> border >= LoAt(d0, root0, block, path, k, 0))
    && Corrected(d0, root0, d, root, depth, block, path, k, border)
    && root == (if k == 0 then nk else root0)
    && OffPath(d0, d, path, depth)
  }

  lemma CorrectingStep(d0: Disk, root0: Node, d: Disk, root: Node, nk: Node, d': Disk, root': Node, cap: nat,
                       depth: nat, block: nat, path: seq<Step>, k: nat, h: nat, border: nat,
                       gone: set<Extent>, come: set<Extent>)
    requires GoodTree(d0, cap, root0, depth) && k > 0
    requires Correcting(d0, root0, d, root, nk, cap, depth, block, path, k, h, border, gone, come)
    requires path[k].pos == 0
    requires CorrectedAt(d0, root0, d, root, block, path, k - 1, k, border)
    requires k == 1 ==> d' == d && root' == RekeyedAt(d0, root0, path, 0, border)
    requires k > 1 ==> root' == root && d' == d[path[k - 1].blk := RekeyedAt(d0, root0, path, k - 1, border)]
    ensures Correcting(d0, root0, d', root', RekeyedAt(d0, root0, path, k - 1, border), cap, depth, block, path,
                       k - 1, h + 1, border, gone, come)
    ensures d'[path[depth].blk] == d[path[depth].blk]
  {
    LiftStep(d0, d, d', cap, root0, nk, depth, block, path, k - 1, h + 1, border, gone, come);
    CorrectedStep(d0, root0, d, root, d', root', cap, depth, block, path, k, border);
    if k > 1 {
      BlocksApart(d0, cap, {}, root0, depth, block, path, k - 1, depth, 0, MAX_BLOCKS);
    }
  }
}
