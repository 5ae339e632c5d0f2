/**
 Inserting an index entry after a split below: what holds while a new sibling is not linked yet,
 and how linking it, or splitting one level further up, carries that on.
 */
module ExtentSplit {
  import opened ExtentNodes
  import opened ExtentPaths
  import opened ExtentEdit

  /**
   The tree is well formed but for the subtree at block `q`, which belongs right after the entry
   taken at level `at`; with it the tree would hold exactly the extents of `target`.
   */
  ghost predicate InFlight(d: Disk, cap: nat, root: Node, depth: nat, block: nat, path: seq<Step>,
                           at: nat, h: nat, idx: nat, q: nat, target: set<Extent>) {
    && GoodTree(d, cap, root, depth)
    && h > 0 && at + h == depth && Chain(d, root, block, path, at)
    && NodeAt(d, root, path, at).Index?
    && Chosen(NodeAt(d, root, path, at).ents, path[at].pos, block)
    && Waiting(d, cap, NodeAt(d, root, path, at), h, HiAt(d, root, block, path, at, MAX_BLOCKS), path[at].pos, idx, q)
    && Sub(d, q, h) !! Blks(d, root, depth)
    && Exts(d, root, depth) + SubExts(d, q, h) == target
  }

  /** The node at level `at` with the waiting entry linked in. */
  function Linked(n: Node, i: nat, idx: nat, q: nat, m: nat): Node
    requires n.Index? && i < |n.ents|
  {
    Index(Ins(n.ents, i + 1, IndexEntry(idx, q)), m)
  }

  lemma LinkedGood(d: Disk, cap: nat, root: Node, depth: nat, block: nat, path: seq<Step>,
                   at: nat, h: nat, idx: nat, q: nat, target: set<Extent>, m: nat)
    requires InFlight(d, cap, root, depth, block, path, at, h, idx, q, target)
    requires m > NodeAt(d, root, path, at).Count()
    ensures var n := NodeAt(d, root, path, at);
            var n' := Linked(n, path[at].pos, idx, q, m);
            && Good(d, cap, {}, n, h, LoAt(d, root, block, path, at, 0), HiAt(d, root, block, path, at, MAX_BLOCKS))
            && Good(d, cap, {}, n', h, LoAt(d, root, block, path, at, 0), HiAt(d, root, block, path, at, MAX_BLOCKS))
            && Exts(d, n', h) == Exts(d, n, h) + SubExts(d, q, h)
            && Blks(d, n', h) == Blks(d, n, h) + Sub(d, q, h)
            && Exts(d, n, h) <= Exts(d, root, depth) && Blks(d, n, h) <= Blks(d, root, depth)
  {
    var n := NodeAt(d, root, path, at);
    var lo, hi := LoAt(d, root, block, path, at, 0), HiAt(d, root, block, path, at, MAX_BLOCKS);
    GoodAt(d, cap, {}, root, depth, block, path, at, h, 0, MAX_BLOCKS);
    LinkGood(d, cap, n, h, lo, hi, path[at].pos, idx, q, m);
    LinkSets(d, n, h, path[at].pos, idx, q, m);
  }

  /** The entry fits into the root: the tree is complete. */
  lemma LinkInRoot(d: Disk, cap: nat, root: Node, depth: nat, block: nat, path: seq<Step>,
                   h: nat, idx: nat, q: nat, target: set<Extent>)
    requires InFlight(d, cap, root, depth, block, path, 0, h, idx, q, target)
    requires root.Count() < root.max
    ensures var root' := Linked(root, path[0].pos, idx, q, root.max);
            && GoodTree(d, cap, root', depth)
            && Exts(d, root', depth) == target
            && Blks(d, root', depth) == Blks(d, root, depth) + Sub(d, q, h)
  {
    LinkedGood(d, cap, root, depth, block, path, 0, h, idx, q, target, root.max);
  }

  /** The entry fits into the block at level `at`: the tree is complete. */
  lemma LinkInBlock(d: Disk, d': Disk, cap: nat, root: Node, depth: nat, block: nat, path: seq<Step>,
                    at: nat, h: nat, idx: nat, q: nat, target: set<Extent>)
    requires at > 0 && InFlight(d, cap, root, depth, block, path, at, h, idx, q, target)
    requires NodeAt(d, root, path, at).Count() < cap
    requires d' == d[path[at].blk := Linked(NodeAt(d, root, path, at), path[at].pos, idx, q, cap)]
    ensures GoodTree(d', cap, root, depth)
    ensures Exts(d', root, depth) == target
    ensures Blks(d', root, depth) == Blks(d, root, depth) + Sub(d, q, h)
  {
    var n := NodeAt(d, root, path, at);
    LinkedGood(d, cap, root, depth, block, path, at, h, idx, q, target, cap);
    StoreAt(d, d', cap, {}, root, depth, block, path, at, h, 0, MAX_BLOCKS, Linked(n, path[at].pos, idx, q, cap));
  }

  // ---------------------------------------------------------------- splitting a node

  /** A node at level `at` is to be cut into `l` (which stays) and `r` (which goes to block `nb`). */
  ghost predicate Cut(d: Disk, cap: nat, root: Node, depth: nat, block: nat, path: seq<Step>,
                      at: nat, h: nat, l: Node, r: Node, key: nat, nb: nat) {
    && GoodTree(d, cap, root, depth)
    && 0 < at && at + h == depth && Chain(d, root, block, path, at)
    && l.Count() > 0 && l.max == cap && r.Count() > 0 && r.max == cap
    && LoAt(d, root, block, path, at, 0) < key < HiAt(d, root, block, path, at, MAX_BLOCKS)
    && Good(d, cap, {}, l, h, LoAt(d, root, block, path, at, 0), key)
    && Good(d, cap, {}, r, h, key, HiAt(d, root, block, path, at, MAX_BLOCKS))
    && Blks(d, l, h) !! Blks(d, r, h)
    && nb !in Blks(d, root, depth) && nb !in Blks(d, l, h) && nb !in Blks(d, r, h)
    && NoNewSharing(d, NodeAt(d, root, path, at), l, h, Blks(d, root, depth))
    && NoNewSharing(d, NodeAt(d, root, path, at), r, h, Blks(d, root, depth))
  }

  /** Writing the new sibling to its block changes nothing of the cut. */
  lemma WriteSibling(d: Disk, cap: nat, root: Node, depth: nat, block: nat, path: seq<Step>,
                     at: nat, h: nat, l: Node, r: Node, key: nat, nb: nat)
    requires Cut(d, cap, root, depth, block, path, at, h, l, r, key, nb)
    ensures Cut(d[nb := r], cap, root, depth, block, path, at, h, l, r, key, nb)
    ensures SameTree(d, d[nb := r], root, depth)
    ensures SameTree(d, d[nb := r], NodeAt(d, root, path, at), h)
    ensures SameTree(d, d[nb := r], l, h) && SameTree(d, d[nb := r], r, h)
    ensures path[at].blk != nb && NodeAt(d[nb := r], root, path, at) == NodeAt(d, root, path, at)
  {
    var d', n := d[nb := r], NodeAt(d, root, path, at);
    var lo, hi := LoAt(d, root, block, path, at, 0), HiAt(d, root, block, path, at, MAX_BLOCKS);
    WriteElsewhere(d, cap, {}, root, depth, 0, MAX_BLOCKS, nb, r);
    WriteElsewhere(d, cap, {}, l, h, lo, key, nb, r);
    WriteElsewhere(d, cap, {}, r, h, key, hi, nb, r);
    GoodAt(d, cap, {}, root, depth, block, path, at, h, 0, MAX_BLOCKS);
    WriteElsewhere(d, cap, {}, n, h, lo, hi, nb, r);
    PathElsewhere(d, cap, root, depth, block, path, at, h, nb, r);
  }

  ghost predicate SameTree(d: Disk, d': Disk, n: Node, h: nat) {
    Exts(d', n, h) == Exts(d, n, h) && Blks(d', n, h) == Blks(d, n, h)
  }

  /** A path does not notice a write to a block outside the tree. */
  lemma PathElsewhere(d: Disk, cap: nat, root: Node, depth: nat, block: nat, path: seq<Step>,
                      k: nat, h: nat, nb: nat, x: Node)
    requires GoodTree(d, cap, root, depth) && k + h == depth && Chain(d, root, block, path, k)
    requires nb !in Blks(d, root, depth)
    ensures Chain(d[nb := x], root, block, path, k)
    ensures forall j :: 0 < j <= k ==> path[j].blk != nb
    ensures LoAt(d[nb := x], root, block, path, k, 0) == LoAt(d, root, block, path, k, 0)
    ensures HiAt(d[nb := x], root, block, path, k, MAX_BLOCKS) == HiAt(d, root, block, path, k, MAX_BLOCKS)
  {
    forall j | 0 < j <= k
      ensures path[j].blk != nb && path[j].blk in d
    {
      ChainUp(d, root, block, path, j, k);
      GoodSubAt(d, cap, {}, root, depth, block, path, j, depth + 1 - j, 0, MAX_BLOCKS);
      assert path[j].blk in Sub(d, path[j].blk, depth + 1 - j);
    }
    PathFrame(d, d[nb := x], root, block, path, k, 0, MAX_BLOCKS);
  }

  /** Storing the left half leaves the sibling waiting one level up. */
  lemma StoreLeft(d: Disk, d': Disk, cap: nat, root: Node, depth: nat, block: nat, path: seq<Step>,
                  at: nat, h: nat, l: Node, r: Node, key: nat, nb: nat, target: set<Extent>)
    requires Cut(d, cap, root, depth, block, path, at, h, l, r, key, nb)
    requires nb in d && d[nb] == r && path[at].blk != nb
    requires d' == d[path[at].blk := l]
    requires Exts(d, root, depth) - Exts(d, NodeAt(d, root, path, at), h) + Exts(d, l, h) + Exts(d, r, h) == target
    ensures InFlight(d', cap, root, depth, block, path, at - 1, h + 1, key, nb, target)
    ensures Blks(d', root, depth) + Sub(d', nb, h + 1)
         == Blks(d, root, depth) - Blks(d, NodeAt(d, root, path, at), h) + Blks(d, l, h) + Blks(d, r, h) + {nb}
  {
    StoreLeftTree(d, d', cap, root, depth, block, path, at, h, l, r, key, nb, target);
    WaitingAbove(d, d', cap, root, depth, block, path, at, h, l, r, key, nb);
  }

  lemma WaitingAbove(d: Disk, d': Disk, cap: nat, root: Node, depth: nat, block: nat, path: seq<Step>,
                     at: nat, h: nat, l: Node, r: Node, key: nat, nb: nat)
    requires Cut(d, cap, root, depth, block, path, at, h, l, r, key, nb)
    requires nb in d && d[nb] == r && path[at].blk != nb
    requires d' == d[path[at].blk := l]
    requires GoodTree(d', cap, root, depth) && Sub(d', nb, h + 1) !! Blks(d', root, depth)
    ensures Chain(d', root, block, path, at - 1) && NodeAt(d', root, path, at - 1).Index?
    ensures Chosen(NodeAt(d', root, path, at - 1).ents, path[at - 1].pos, block)
    ensures Waiting(d', cap, NodeAt(d', root, path, at - 1), h + 1, HiAt(d', root, block, path, at - 1, MAX_BLOCKS),
                    path[at - 1].pos, key, nb)
  {
    StoreKeepsPath(d, d', cap, {}, root, depth, block, path, at, h, 0, MAX_BLOCKS, l);
    LeftAndRight(d, d', cap, root, depth, block, path, at, h, l, r, key, nb);
    GoodAt(d', cap, {}, root, depth, block, path, at - 1, h + 1, 0, MAX_BLOCKS);
  }

  lemma StoreLeftTree(d: Disk, d': Disk, cap: nat, root: Node, depth: nat, block: nat, path: seq<Step>,
                      at: nat, h: nat, l: Node, r: Node, key: nat, nb: nat, target: set<Extent>)
    requires Cut(d, cap, root, depth, block, path, at, h, l, r, key, nb)
    requires nb in d && d[nb] == r && path[at].blk != nb
    requires d' == d[path[at].blk := l]
    requires Exts(d, root, depth) - Exts(d, NodeAt(d, root, path, at), h) + Exts(d, l, h) + Exts(d, r, h) == target
    ensures GoodTree(d', cap, root, depth)
    ensures Sub(d', nb, h + 1) !! Blks(d', root, depth)
    ensures Exts(d', root, depth) + SubExts(d', nb, h + 1) == target
    ensures Blks(d', root, depth) + Sub(d', nb, h + 1)
         == Blks(d, root, depth) - Blks(d, NodeAt(d, root, path, at), h) + Blks(d, l, h) + Blks(d, r, h) + {nb}
  {
    var lo, hi := LoAt(d, root, block, path, at, 0), HiAt(d, root, block, path, at, MAX_BLOCKS);
    Widen(d, cap, {}, l, h, lo, key, lo, hi);
    StoreAt(d, d', cap, {}, root, depth, block, path, at, h, 0, MAX_BLOCKS, l);
    LeftAndRight(d, d', cap, root, depth, block, path, at, h, l, r, key, nb);
  }

  lemma LeftAndRight(d: Disk, d': Disk, cap: nat, root: Node, depth: nat, block: nat, path: seq<Step>,
                     at: nat, h: nat, l: Node, r: Node, key: nat, nb: nat)
    requires Cut(d, cap, root, depth, block, path, at, h, l, r, key, nb)
    requires nb in d && d[nb] == r && path[at].blk != nb
    requires d' == d[path[at].blk := l]
    ensures GoodSub(d', cap, {}, path[at].blk, h + 1, LoAt(d, root, block, path, at, 0), key)
    ensures GoodSub(d', cap, {}, nb, h + 1, key, HiAt(d, root, block, path, at, MAX_BLOCKS))
    ensures Sub(d', nb, h + 1) == {nb} + Blks(d, r, h) && SubExts(d', nb, h + 1) == Exts(d, r, h)
  {
    var p := path[at].blk;
    GoodSubAt(d, cap, {}, root, depth, block, path, at, h + 1, 0, MAX_BLOCKS);
    assert p in Sub(d, p, h + 1);
    WriteElsewhere(d, cap, {}, l, h, LoAt(d, root, block, path, at, 0), key, p, l);
    WriteElsewhere(d, cap, {}, r, h, key, HiAt(d, root, block, path, at, MAX_BLOCKS), p, l);
  }

  /** A cut carried out: first the new sibling is written, then the node itself. */
  lemma SplitNode(d: Disk, d': Disk, cap: nat, root: Node, depth: nat, block: nat, path: seq<Step>,
                  at: nat, h: nat, l: Node, r: Node, key: nat, nb: nat, target: set<Extent>)
    requires Cut(d, cap, root, depth, block, path, at, h, l, r, key, nb)
    requires d' == d[nb := r][path[at].blk := l]
    requires Exts(d, root, depth) - Exts(d, NodeAt(d, root, path, at), h) + Exts(d, l, h) + Exts(d, r, h) == target
    ensures InFlight(d', cap, root, depth, block, path, at - 1, h + 1, key, nb, target)
    ensures Blks(d', root, depth) + Sub(d', nb, h + 1)
         == Blks(d, root, depth) - Blks(d, NodeAt(d, root, path, at), h) + Blks(d, l, h) + Blks(d, r, h) + {nb}
  {
    WriteSibling(d, cap, root, depth, block, path, at, h, l, r, key, nb);
    StoreLeft(d[nb := r], d', cap, root, depth, block, path, at, h, l, r, key, nb, target);
  }

  /** Cutting the node that should take the waiting entry, once the entry is in place. */
  lemma CutIndex(d: Disk, cap: nat, root: Node, depth: nat, block: nat, path: seq<Step>,
                 at: nat, h: nat, idx: nat, q: nat, target: set<Extent>,
                 l: seq<IndexEntry>, r: seq<IndexEntry>, nb: nat)
    requires at > 0 && InFlight(d, cap, root, depth, block, path, at, h, idx, q, target)
    requires l + r == Ins(NodeAt(d, root, path, at).ents, path[at].pos + 1, IndexEntry(idx, q))
    requires 0 < |l| <= cap && 0 < |r| <= cap
    requires nb !in Blks(d, root, depth) && nb !in Sub(d, q, h)
    ensures Cut(d, cap, root, depth, block, path, at, h, Index(l, cap), Index(r, cap), r[0].key, nb)
    ensures Exts(d, Index(l, cap), h) + Exts(d, Index(r, cap), h) == Exts(d, NodeAt(d, root, path, at), h) + SubExts(d, q, h)
    ensures Blks(d, Index(l, cap), h) + Blks(d, Index(r, cap), h) == Blks(d, NodeAt(d, root, path, at), h) + Sub(d, q, h)
  {
    var n, m := NodeAt(d, root, path, at), |l + r|;
    var lo, hi := LoAt(d, root, block, path, at, 0), HiAt(d, root, block, path, at, MAX_BLOCKS);
    LinkedGood(d, cap, root, depth, block, path, at, h, idx, q, target, m);
    assert Linked(n, path[at].pos, idx, q, m) == Index(l + r, m);
    CutGood(d, cap, l, r, m, h, lo, hi, cap, cap);
    CutSets(d, l, r, m, h, cap, cap);
    CutKeyBounds(l, r, lo, hi);
    FreshForParts(Blks(d, Index(l, cap), h), Blks(d, Index(r, cap), h), Blks(d, n, h), Sub(d, q, h), Blks(d, root, depth), nb);
  }

  lemma CutKeyBounds(l: seq<IndexEntry>, r: seq<IndexEntry>, lo: int, hi: int)
    requires SortedKeys(l + r, lo, hi) && 0 < |l| && 0 < |r|
    ensures lo < r[0].key < hi
  {
    var s := l + r;
    assert s[0].key < s[|l|].key;
  }

  lemma FreshForParts(l: set<nat>, r: set<nat>, n: set<nat>, q: set<nat>, all: set<nat>, nb: nat)
    requires l + r == n + q && n <= all && q !! all && nb !in all && nb !in q
    ensures nb !in l && nb !in r
    ensures forall b :: b in l ==> b in n || b !in all
    ensures forall b :: b in r ==> b in n || b !in all
  {
    assert l <= n + q && r <= n + q;
  }

  /** Splitting a full index block: the sibling made of the upper entries waits one level up. */
  lemma SplitIndex(d: Disk, d': Disk, cap: nat, root: Node, depth: nat, block: nat, path: seq<Step>,
                   at: nat, h: nat, idx: nat, q: nat, target: set<Extent>,
                   l: seq<IndexEntry>, r: seq<IndexEntry>, nb: nat)
    requires at > 0 && InFlight(d, cap, root, depth, block, path, at, h, idx, q, target)
    requires l + r == Ins(NodeAt(d, root, path, at).ents, path[at].pos + 1, IndexEntry(idx, q))
    requires 0 < |l| <= cap && 0 < |r| <= cap
    requires nb !in Blks(d, root, depth) && nb !in Sub(d, q, h)
    requires d' == d[nb := Index(r, cap)][path[at].blk := Index(l, cap)]
    ensures InFlight(d', cap, root, depth, block, path, at - 1, h + 1, r[0].key, nb, target)
    ensures Blks(d', root, depth) + Sub(d', nb, h + 1) == Blks(d, root, depth) + Sub(d, q, h) + {nb}
  {
    var n, L, R := NodeAt(d, root, path, at), Index(l, cap), Index(r, cap);
    CutIndex(d, cap, root, depth, block, path, at, h, idx, q, target, l, r, nb);
    GoodAt(d, cap, {}, root, depth, block, path, at, h, 0, MAX_BLOCKS);
    SameUnion(Exts(d, root, depth), Exts(d, n, h), Exts(d, L, h), Exts(d, R, h), SubExts(d, q, h));
    SameUnion(Blks(d, root, depth), Blks(d, n, h), Blks(d, L, h), Blks(d, R, h), Sub(d, q, h));
    SplitNode(d, d', cap, root, depth, block, path, at, h, L, R, r[0].key, nb, target);
  }

  lemma SameUnion<T>(all: set<T>, n: set<T>, l: set<T>, r: set<T>, q: set<T>)
    requires n <= all && l + r == n + q
    ensures all - n + l + r == all + q
  {
    assert all - n + l + r == all - n + (l + r);
  }
}
