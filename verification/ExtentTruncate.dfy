/** Truncating a file to zero: an explicit-stack walk that frees every extent and every tree block. */
module ExtentTruncate {
  import opened ExtentNodes
  import opened ExtentPaths
  import opened ExtentMap
  import opened ExtentLookup
  import opened ExtentEdit
  import opened ExtentLeaf
  import opened ExtentInsert
  import opened ExtentTree
  import opened Ownership
  import opened Volumes
  import opened BlockAlloc

  // ---------------------------------------------------------------- rewriting a node of the path

  /** Replaces the node at level `k` of the path. */
  method PutNode(vol: Volume, inode: Inode, path: seq<Step>, k: nat, n: Node)
    requires k < |path|
    modifies vol`disk, inode`root
    ensures Put(old(vol.disk), vol.disk, old(inode.root), inode.root, path, k, n)
  {
    if k == 0 {
      inode.root := n;
    } else {
      vol.disk := vol.disk[path[k].blk := n];
    }
  }

  ghost predicate Put(d: Disk, d': Disk, root: Node, root': Node, path: seq<Step>, k: nat, n: Node)
    requires k < |path|
  {
    if k == 0 then d' == d && root' == n else d' == d[path[k].blk := n] && root' == root
  }

  /** The whole tree after the node at level `k` was replaced. */
  ghost predicate Exchange(d: Disk, d': Disk, root: Node, root': Node, depth: nat, n: Node, n': Node, h: nat) {
    && Exts(d', root', depth) == Exts(d, root, depth) - Exts(d, n, h) + Exts(d, n', h)
    && Blks(d', root', depth) == Blks(d, root, depth) - Blks(d, n, h) + Blks(d, n', h)
    && Exts(d, n, h) <= Exts(d, root, depth) && Blks(d, n, h) <= Blks(d, root, depth)
  }

  lemma PutGood(d: Disk, d': Disk, cap: nat, E: set<nat>, root: Node, root': Node, depth: nat, path: seq<Step>,
                k: nat, h: nat, n': Node)
    requires Good(d, cap, E, root, depth, 0, MAX_BLOCKS)
    requires k + h == depth && Chain(d, root, 0, path, k)
    requires Good(d, cap, E, n', h, LoAt(d, root, 0, path, k, 0), HiAt(d, root, 0, path, k, MAX_BLOCKS))
    requires k > 0 ==> n'.max == cap && (n'.Count() > 0 || path[k].blk in E)
    requires Blks(d, n', h) <= Blks(d, NodeAt(d, root, path, k), h)
    requires Put(d, d', root, root', path, k, n')
    ensures Good(d', cap, E, root', depth, 0, MAX_BLOCKS)
    ensures Exchange(d, d', root, root', depth, NodeAt(d, root, path, k), n', h)
  {
    GoodAt(d, cap, E, root, depth, 0, path, k, h, 0, MAX_BLOCKS);
    if k > 0 {
      StoreAt(d, d', cap, E, root, depth, 0, path, k, h, 0, MAX_BLOCKS, n');
    }
  }

  /** The path leads on through the replaced node, if its first entry still leads to the same child. */
  lemma PutPath(d: Disk, d': Disk, cap: nat, E: set<nat>, root: Node, root': Node, depth: nat, path: seq<Step>,
                k: nat, h: nat, n': Node, i: nat)
    requires Good(d, cap, E, root, depth, 0, MAX_BLOCKS)
    requires k <= i <= depth && k + h == depth && Chain(d, root, 0, path, i)
    requires Put(d, d', root, root', path, k, n')
    requires k < i ==> Link(n', 0, path[k].pos, path[k + 1].blk)
    ensures Chain(d', root', 0, path, i) && Chain(d, root, 0, path, k) && Chain(d', root', 0, path, k)
    ensures HiAt(d', root', 0, path, k, MAX_BLOCKS) == HiAt(d, root, 0, path, k, MAX_BLOCKS)
    ensures LoAt(d', root', 0, path, k, 0) == LoAt(d, root, 0, path, k, 0)
  {
    ChainUp(d, root, 0, path, k, i);
    if k > 0 {
      StoreKeepsPath(d, d', cap, E, root, depth, 0, path, k, h, 0, MAX_BLOCKS, n');
    }
    PutPathBelow(d, d', cap, E, root, root', depth, path, k, n', i);
  }

  lemma {:induction false} PutPathBelow(d: Disk, d': Disk, cap: nat, E: set<nat>, root: Node, root': Node, depth: nat,
                                        path: seq<Step>, k: nat, n': Node, i: nat)
    requires Good(d, cap, E, root, depth, 0, MAX_BLOCKS)
    requires k <= i <= depth && Chain(d, root, 0, path, i)
    requires Put(d, d', root, root', path, k, n') && Chain(d', root', 0, path, k)
    requires k < i ==> Link(n', 0, path[k].pos, path[k + 1].blk)
    ensures Chain(d', root', 0, path, i)
    decreases i
  {
    if k < i {
      PutPathBelow(d, d', cap, E, root, root', depth, path, k, n', i - 1);
      if 0 < k < i - 1 {
        BlocksApart(d, cap, E, root, depth, 0, path, k, i - 1, 0, MAX_BLOCKS);
      }
    }
  }

  /** Replacing a node of the path changes no block outside the tree. */
  lemma PutKeeps(d0: Disk, d: Disk, d': Disk, cap: nat, E: set<nat>, root: Node, root': Node, depth: nat, path: seq<Step>,
                 k: nat, i: nat, n': Node, all: set<nat>)
    requires Good(d, cap, E, root, depth, 0, MAX_BLOCKS)
    requires k <= i <= depth && Chain(d, root, 0, path, i) && Put(d, d', root, root', path, k, n')
    requires KeepsOthers(d0, d, all) && Blks(d, root, depth) <= all
    ensures KeepsOthers(d0, d', all)
  {
    if k > 0 {
      ChainUp(d, root, 0, path, k, i);
      GoodSubAt(d, cap, E, root, depth, 0, path, k, depth + 1 - k, 0, MAX_BLOCKS);
      assert path[k].blk in Sub(d, path[k].blk, depth + 1 - k);
    }
    KeepsTwice(d0, d, d', all, all);
  }

  // ---------------------------------------------------------------- the walk

  /** The block of the node where the walk is may be empty. */
  ghost function Here(path: seq<Step>, i: nat): set<nat>
    requires i < |path|
  {
    if i == 0 then {} else {path[i].blk}
  }

  /** The walk is at level `i`, on the first entry of every node above. */
  ghost predicate Walking(d: Disk, cap: nat, root: Node, depth: nat, path: seq<Step>, i: nat) {
    && i <= depth && |path| == depth + 1
    && Good(d, cap, Here(path, i), root, depth, 0, MAX_BLOCKS)
    && Chain(d, root, 0, path, i)
    && (forall j :: 0 <= j <= i ==> path[j].pos == 0)
  }

  // ---------------------------------------------------------------- propagating a key

  /** The first key of a node may rise to `k` as long as the first child has no smaller key. */
  lemma RaiseKey(d: Disk, cap: nat, E: set<nat>, n: Node, h: nat, lo: int, hi: int, k: nat)
    requires h > 0 && Good(d, cap, E, n, h, lo, hi) && n.Count() > 0
    requires n.ents[0].key <= k < Bound(n.ents, 1, hi)
    requires n.ents[0].ptr in d ==> var kid := d[n.ents[0].ptr]; kid.Count() > 0 ==> k <= kid.FirstKey()
    ensures var n' := n.(ents := n.ents[0 := IndexEntry(k, n.ents[0].ptr)]);
            Good(d, cap, E, n', h, lo, hi) && Exts(d, n', h) == Exts(d, n, h) && Blks(d, n', h) == Blks(d, n, h)
  {
    var p, n' := n.ents[0].ptr, n.(ents := n.ents[0 := IndexEntry(k, n.ents[0].ptr)]);
    KidIsGood(d, cap, E, n, h, lo, hi, 0);
    Raise(d, cap, E, d[p], h - 1, n.ents[0].key, Bound(n.ents, 1, hi), k);
    BlksOnDisk(d, cap, E, n, h, lo, hi);
    assert OnlyBelow(d, d, Blks(d, n, h), p, h);
    ReplaceKidGood(d, d, cap, E, n, n', h, lo, hi, lo, 0, k);
    ReplaceKidSets(d, d, cap, E, n, n', h, lo, hi, 0, k);
    PutTogether(Exts(d, n, h), SubExts(d, p, h));
    PutTogether(Blks(d, n, h), Sub(d, p, h));
  }

  /** `border` bounds the node at level `j` from below, within the node's own bounds. */
  ghost predicate Bordered(d: Disk, root: Node, path: seq<Step>, j: nat, border: nat)
    requires Chain(d, root, 0, path, j)
  {
    && LoAt(d, root, 0, path, j, 0) <= border < HiAt(d, root, 0, path, j, MAX_BLOCKS)
    && (NodeAt(d, root, path, j).Count() > 0 ==> border <= NodeAt(d, root, path, j).FirstKey())
  }

  /** One level: the entry above level `j` gets `border` as its key. */
  lemma KeyUp(d: Disk, d': Disk, cap: nat, E: set<nat>, root: Node, root': Node, depth: nat, path: seq<Step>,
              i: nat, j: nat, h: nat, border: nat)
    requires Good(d, cap, E, root, depth, 0, MAX_BLOCKS) && Chain(d, root, 0, path, i) && 0 < j <= i <= depth
    requires j + h == depth + 1
    requires path[j - 1].pos == 0 && Chain(d, root, 0, path, j) && Bordered(d, root, path, j, border)
    requires var n := NodeAt(d, root, path, j - 1);
             Put(d, d', root, root', path, j - 1, n.(ents := n.ents[0 := IndexEntry(border, n.ents[0].ptr)]))
    ensures Good(d', cap, E, root', depth, 0, MAX_BLOCKS) && Chain(d', root', 0, path, i)
    ensures Exts(d', root', depth) == Exts(d, root, depth) && Blks(d', root', depth) == Blks(d, root, depth)
    ensures Chain(d', root', 0, path, j - 1) && Bordered(d', root', path, j - 1, border)
  {
    var n := NodeAt(d, root, path, j - 1);
    var n' := n.(ents := n.ents[0 := IndexEntry(border, n.ents[0].ptr)]);
    KeyUpNode(d, cap, E, root, depth, path, j, h, border);
    PutGood(d, d', cap, E, root, root', depth, path, j - 1, h, n');
    PutTogether(Exts(d, root, depth), Exts(d, n, h));
    PutTogether(Blks(d, root, depth), Blks(d, n, h));
    assert Link(n', 0, 0, path[j].blk);
    PutPath(d, d', cap, E, root, root', depth, path, j - 1, h, n', i);
    ChainUp(d', root', 0, path, j - 1, i);
  }

  lemma KeyUpNode(d: Disk, cap: nat, E: set<nat>, root: Node, depth: nat, path: seq<Step>, j: nat, h: nat, border: nat)
    requires Good(d, cap, E, root, depth, 0, MAX_BLOCKS) && 0 < j <= depth
    requires j + h == depth + 1
    requires Chain(d, root, 0, path, j) && path[j - 1].pos == 0 && Bordered(d, root, path, j, border)
    ensures var n := NodeAt(d, root, path, j - 1);
            var n' := n.(ents := n.ents[0 := IndexEntry(border, n.ents[0].ptr)]);
            && Good(d, cap, E, n', h, LoAt(d, root, 0, path, j - 1, 0), HiAt(d, root, 0, path, j - 1, MAX_BLOCKS))
            && Exts(d, n', h) == Exts(d, n, h) && Blks(d, n', h) == Blks(d, n, h)
            && LoAt(d, root, 0, path, j - 1, 0) <= border < HiAt(d, root, 0, path, j - 1, MAX_BLOCKS)
            && (j > 1 ==> n.max == cap)
  {
    var n := NodeAt(d, root, path, j - 1);
    GoodAt(d, cap, E, root, depth, 0, path, j - 1, h, 0, MAX_BLOCKS);
    HiShrinks(d, cap, E, root, depth, 0, path, j, h - 1, 0, MAX_BLOCKS);
    RaiseKey(d, cap, E, n, h, LoAt(d, root, 0, path, j - 1, 0), HiAt(d, root, 0, path, j - 1, MAX_BLOCKS), border);
    if j > 1 {
      GoodSubAt(d, cap, E, root, depth, 0, path, j - 1, h + 1, 0, MAX_BLOCKS);
    }
  }

  /** The first entries of the nodes at the levels from `j` to above `i` have the key `border`. */
  ghost predicate KeysAre(d: Disk, root: Node, path: seq<Step>, j: nat, i: nat, border: nat)
    requires i < |path|
  {
    forall k :: j <= k < i ==>
      && (k == 0 || path[k].blk in d) && NodeAt(d, root, path, k).Index?
      && |NodeAt(d, root, path, k).ents| > 0 && NodeAt(d, root, path, k).ents[0].key == border
  }

  lemma KeysDown(d: Disk, d': Disk, cap: nat, E: set<nat>, root: Node, root': Node, depth: nat, path: seq<Step>,
                 i: nat, j: nat, border: nat, n': Node)
    requires Good(d, cap, E, root, depth, 0, MAX_BLOCKS) && Chain(d, root, 0, path, i) && 0 < j <= i <= depth
    requires Put(d, d', root, root', path, j - 1, n')
    requires n'.Index? && |n'.ents| > 0 && n'.ents[0].key == border && KeysAre(d, root, path, j, i, border)
    ensures KeysAre(d', root', path, j - 1, i, border)
  {
    forall k | j <= k < i
      ensures NodeAt(d', root', path, k) == NodeAt(d, root, path, k)
    {
      if j > 1 {
        ChainUp(d, root, 0, path, k, i);
        BlocksApart(d, cap, E, root, depth, 0, path, j - 1, k, 0, MAX_BLOCKS);
      }
    }
  }

  /** Carries the first key of the node at level `i` up to the entries above it. */
  method PropagateKey(vol: Volume, inode: Inode, path: seq<Step>, i: nat, border: nat)
    requires Walking(vol.disk, vol.cap, inode.root, inode.depth, path, i)
    requires Bordered(vol.disk, inode.root, path, i, border)
    modifies vol`disk, inode`root
    ensures KeysAre(vol.disk, inode.root, path, 0, i, border)
    ensures Walking(vol.disk, vol.cap, inode.root, inode.depth, path, i)
    ensures Exts(vol.disk, inode.root, inode.depth) == old(Exts(vol.disk, inode.root, inode.depth))
    ensures Blks(vol.disk, inode.root, inode.depth) == old(Blks(vol.disk, inode.root, inode.depth))
    ensures KeepsOthers(old(vol.disk), vol.disk, old(Blks(vol.disk, inode.root, inode.depth)))
  {
    ghost var d0, all := vol.disk, Blks(vol.disk, inode.root, inode.depth);
    var j := i;
    while j > 0 && path[j].pos == 0
      invariant 0 <= j <= i
      invariant Walking(vol.disk, vol.cap, inode.root, inode.depth, path, i)
      invariant Chain(vol.disk, inode.root, 0, path, j) && Bordered(vol.disk, inode.root, path, j, border)
      invariant Exts(vol.disk, inode.root, inode.depth) == old(Exts(vol.disk, inode.root, inode.depth))
      invariant Blks(vol.disk, inode.root, inode.depth) == all && KeepsOthers(d0, vol.disk, all)
      invariant KeysAre(vol.disk, inode.root, path, j, i, border)
    {
      SetKeyAbove(vol, inode, path, i, j, border, d0, all);
      j := j - 1;
    }
  }

  /** One level of it; `d0` is the disk before the first level. */
  method SetKeyAbove(vol: Volume, inode: Inode, path: seq<Step>, i: nat, j: nat, border: nat, ghost d0: Disk, ghost all: set<nat>)
    requires Walking(vol.disk, vol.cap, inode.root, inode.depth, path, i) && 0 < j <= i
    requires Chain(vol.disk, inode.root, 0, path, j) && Bordered(vol.disk, inode.root, path, j, border)
    requires Blks(vol.disk, inode.root, inode.depth) == all && KeepsOthers(d0, vol.disk, all)
    requires KeysAre(vol.disk, inode.root, path, j, i, border)
    modifies vol`disk, inode`root
    ensures KeysAre(vol.disk, inode.root, path, j - 1, i, border)
    ensures Walking(vol.disk, vol.cap, inode.root, inode.depth, path, i)
    ensures Chain(vol.disk, inode.root, 0, path, j - 1) && Bordered(vol.disk, inode.root, path, j - 1, border)
    ensures Exts(vol.disk, inode.root, inode.depth) == old(Exts(vol.disk, inode.root, inode.depth))
    ensures Blks(vol.disk, inode.root, inode.depth) == all && KeepsOthers(d0, vol.disk, all)
  {
    ghost var d, root := vol.disk, inode.root;
    var n := NodeAt(vol.disk, inode.root, path, j - 1);
    var n' := n.(ents := n.ents[0 := IndexEntry(border, n.ents[0].ptr)]);
    PutNode(vol, inode, path, j - 1, n');
    KeyUp(d, vol.disk, vol.cap, Here(path, i), root, inode.root, inode.depth, path, i, j, inode.depth + 1 - j, border);
    PutKeeps(d0, d, vol.disk, vol.cap, Here(path, i), root, inode.root, inode.depth, path, j - 1, i, n', all);
    KeysDown(d, vol.disk, vol.cap, Here(path, i), root, inode.root, inode.depth, path, i, j, border, n');
  }

  // ---------------------------------------------------------------- unlinking an empty child

  /** An index node without its first entry. */
  lemma DropFirst(d: Disk, cap: nat, E: set<nat>, n: Node, h: nat, lo: int, hi: int)
    requires h > 0 && Good(d, cap, E, n, h, lo, hi) && n.Count() > 0
    ensures var n', c := n.(ents := n.ents[1..]), n.ents[0].ptr;
            && Good(d, cap, E, n', h, lo, hi)
            && Exts(d, n', h) == Exts(d, n, h) - SubExts(d, c, h)
            && Blks(d, n', h) == Blks(d, n, h) - Sub(d, c, h)
            && Sub(d, c, h) <= Blks(d, n, h)
  {
    var n' := n.(ents := n.ents[1..]);
    forall i | 0 <= i < |n'.ents|
      ensures GoodKid(d, cap, E, n'.ents, i, h, hi)
    {
      KidIsGood(d, cap, E, n, h, lo, hi, i + 1);
      assert Bound(n'.ents, i + 1, hi) == Bound(n.ents, i + 2, hi);
    }
    KidIsGood(d, cap, E, n, h, lo, hi, 0);
    DropFirstSets(d, cap, E, n, h, lo, hi);
  }

  lemma DropFirstSets(d: Disk, cap: nat, E: set<nat>, n: Node, h: nat, lo: int, hi: int)
    requires h > 0 && Good(d, cap, E, n, h, lo, hi) && n.Count() > 0
    ensures var n', c := n.(ents := n.ents[1..]), n.ents[0].ptr;
            && Exts(d, n', h) == Exts(d, n, h) - SubExts(d, c, h)
            && Blks(d, n', h) == Blks(d, n, h) - Sub(d, c, h)
  {
    var n', c := n.(ents := n.ents[1..]), n.ents[0].ptr;
    forall i | 0 <= i < |n'.ents|
      ensures n'.ents[i] == n.ents[i + 1]
      ensures Sub(d, n'.ents[i].ptr, h) !! Sub(d, c, h) && SubExts(d, n'.ents[i].ptr, h) !! SubExts(d, c, h)
    {
      KidExtsApart(d, cap, E, n, h, lo, hi, 0, i + 1);
      assert Sub(d, n.ents[0].ptr, h) !! Sub(d, n.ents[i + 1].ptr, h);
    }
    forall i | 1 <= i < |n.ents|
      ensures n.ents[i] == n'.ents[i - 1]
    {
    }
  }

  /** The tree after the empty child at level `i + 1` was unlinked from level `i`. */
  lemma Unlinked(d: Disk, d': Disk, cap: nat, root: Node, root': Node, depth: nat, path: seq<Step>, i: nat, h: nat)
    requires Walking(d, cap, root, depth, path, i + 1) && i + h == depth
    requires NodeAt(d, root, path, i + 1).Count() == 0
    requires Chain(d, root, 0, path, i)
    requires var n := NodeAt(d, root, path, i); Put(d, d', root, root', path, i, n.(ents := n.ents[1..]))
    ensures Walking(d', cap, root', depth, path, i)
    ensures Exts(d', root', depth) == Exts(d, root, depth)
    ensures path[i + 1].blk in Blks(d, root, depth) && Blks(d', root', depth) == Blks(d, root, depth) - {path[i + 1].blk}
    ensures var ents := NodeAt(d, root, path, i).ents;
            Bordered(d', root', path, i, if |ents| > 1 then ents[1].key else ents[0].key)
  {
    var c, E := path[i + 1].blk, Here(path, i + 1) + Here(path, i);
    var n := NodeAt(d, root, path, i);
    var n' := n.(ents := n.ents[1..]);
    AllowEmpty(d, cap, Here(path, i + 1), E, root, depth, 0, MAX_BLOCKS);
    UnlinkedNode(d, cap, E, root, depth, path, i, h);
    PutGood(d, d', cap, E, root, root', depth, path, i, h, n');
    PutPath(d, d', cap, E, root, root', depth, path, i, h, n', i);
    UnlinkedSets(Blks(d, root, depth), Blks(d, n, h), c);
    PutTogether(Exts(d, root, depth), Exts(d, n, h));
    AllowEmpty(d', cap, E, Here(path, i), root', depth, 0, MAX_BLOCKS);
    assert NodeAt(d', root', path, i) == n';
  }

  lemma UnlinkedNode(d: Disk, cap: nat, E: set<nat>, root: Node, depth: nat, path: seq<Step>, i: nat, h: nat)
    requires Good(d, cap, E, root, depth, 0, MAX_BLOCKS) && i + h == depth && i < depth
    requires Chain(d, root, 0, path, i + 1) && Chain(d, root, 0, path, i)
    requires path[i].pos == 0 && NodeAt(d, root, path, i + 1).Count() == 0
    ensures var n := NodeAt(d, root, path, i);
            var n' := n.(ents := n.ents[1..]);
            && Good(d, cap, E, n', h, LoAt(d, root, 0, path, i, 0), HiAt(d, root, 0, path, i, MAX_BLOCKS))
            && Exts(d, n', h) == Exts(d, n, h) && Blks(d, n', h) == Blks(d, n, h) - {path[i + 1].blk}
            && path[i + 1].blk in Blks(d, n, h)
            && (i > 0 ==> n.max == cap)
            && SortedKeys(n.ents, LoAt(d, root, 0, path, i, 0), HiAt(d, root, 0, path, i, MAX_BLOCKS))
  {
    GoodAt(d, cap, E, root, depth, 0, path, i, h, 0, MAX_BLOCKS);
    if i > 0 {
      GoodSubAt(d, cap, E, root, depth, 0, path, i, h + 1, 0, MAX_BLOCKS);
    }
    DropFirst(d, cap, E, NodeAt(d, root, path, i), h, LoAt(d, root, 0, path, i, 0), HiAt(d, root, 0, path, i, MAX_BLOCKS));
    EmptySub(d, path[i + 1].blk, h);
  }

  lemma EmptySub(d: Disk, c: nat, h: nat)
    requires h > 0 && c in d && d[c].Count() == 0
    ensures Sub(d, c, h) == {c} && SubExts(d, c, h) == {}
  {
  }

  lemma UnlinkedSets(all: set<nat>, part: set<nat>, c: nat)
    requires c in part && part <= all
    ensures all - part + (part - {c}) == all - {c}
  {
  }

  // ---------------------------------------------------------------- freeing

  /** The books: who owns what, and the counts that move with it. */
  ghost predicate Books(geo: Geometry, used: set<nat>, free: int, blocks: int, others: set<nat>, s0: Ledger,
                        exts: set<Extent>, blks: set<nat>) {
    && Owner(geo, exts, blks) && Split(used, others, exts, blks)
    && Tallied(s0, used, free, blocks)
  }

  /** Frees one tree block. */
  method FreeNode(inode: Inode, alloc: BlockAllocator, c: nat, ghost others: set<nat>, ghost s0: Ledger,
                  ghost exts: set<Extent>, ghost blks: set<nat>)
    requires alloc.Valid() && c in blks
    requires Books(alloc.geo, alloc.used, alloc.totalFree, inode.blocks, others, s0, exts, blks)
    modifies inode`blocks, alloc`bitmaps, alloc`groupFree, alloc`totalFree, alloc`used
    ensures alloc.Valid()
    ensures Books(alloc.geo, alloc.used, alloc.totalFree, inode.blocks, others, s0, exts, blks - {c})
  {
    FreeTreeBlock(alloc.geo, alloc.used, others, exts, blks, c);
    TallyOne(s0, alloc.used, alloc.totalFree, inode.blocks, c);
    alloc.FreeBlocks(inode, c, 1);
  }

  /** The key in the first slot once the first entry of the node is gone. */
  predicate KeyLeft(n: Node, border: nat) {
    n.Index? && |n.ents| > 0 && border == if |n.ents| > 1 then n.ents[1].key else n.ents[0].key
  }

  /** Shifts the entries of level `i` over the first one, whose child is empty. */
  method UnlinkFirst(vol: Volume, inode: Inode, path: seq<Step>, i: nat) returns (c: nat, border: nat)
    requires Walking(vol.disk, vol.cap, inode.root, inode.depth, path, i + 1)
    requires NodeAt(vol.disk, inode.root, path, i + 1).Count() == 0
    modifies vol`disk, inode`root
    ensures Walking(vol.disk, vol.cap, inode.root, inode.depth, path, i)
    ensures Bordered(vol.disk, inode.root, path, i, border) && KeyLeft(old(NodeAt(vol.disk, inode.root, path, i)), border)
    ensures Exts(vol.disk, inode.root, inode.depth) == old(Exts(vol.disk, inode.root, inode.depth))
    ensures c == path[i + 1].blk && c in old(Blks(vol.disk, inode.root, inode.depth))
    ensures Blks(vol.disk, inode.root, inode.depth) == old(Blks(vol.disk, inode.root, inode.depth)) - {c}
    ensures KeepsOthers(old(vol.disk), vol.disk, old(Blks(vol.disk, inode.root, inode.depth)))
  {
    ghost var d, root := vol.disk, inode.root;
    ChainUp(d, root, 0, path, i, i + 1);
    var n := NodeAt(vol.disk, inode.root, path, i);
    c := n.ents[path[i].pos].ptr;
    // the slot of a removed last entry keeps its key
    border := if |n.ents| > 1 then n.ents[1].key else n.ents[0].key;
    PutNode(vol, inode, path, i, n.(ents := n.ents[1..]));
    Unlinked(d, vol.disk, vol.cap, root, inode.root, inode.depth, path, i, inode.depth - i);
    PutKeeps(d, d, vol.disk, vol.cap, Here(path, i + 1), root, inode.root, inode.depth, path, i, i + 1,
             n.(ents := n.ents[1..]), Blks(d, root, inode.depth));
  }

  /** Removes the first entry of level `i`, whose child is empty, and frees the child's block. */
  method RemoveIdx(vol: Volume, inode: Inode, alloc: BlockAllocator, path: seq<Step>, i: nat,
                   ghost others: set<nat>, ghost s0: Ledger)
    requires Walking(vol.disk, vol.cap, inode.root, inode.depth, path, i + 1)
    requires NodeAt(vol.disk, inode.root, path, i + 1).Count() == 0
    requires alloc.Valid()
    requires Books(alloc.geo, alloc.used, alloc.totalFree, inode.blocks, others, s0,
                   Exts(vol.disk, inode.root, inode.depth), Blks(vol.disk, inode.root, inode.depth))
    modifies vol`disk, inode`root, inode`blocks, alloc`bitmaps, alloc`groupFree, alloc`totalFree, alloc`used
    ensures Walking(vol.disk, vol.cap, inode.root, inode.depth, path, i) && alloc.Valid()
    ensures Exts(vol.disk, inode.root, inode.depth) == old(Exts(vol.disk, inode.root, inode.depth))
    ensures path[i + 1].blk in old(Blks(vol.disk, inode.root, inode.depth))
    ensures Blks(vol.disk, inode.root, inode.depth) == old(Blks(vol.disk, inode.root, inode.depth)) - {path[i + 1].blk}
    ensures Books(alloc.geo, alloc.used, alloc.totalFree, inode.blocks, others, s0,
                  Exts(vol.disk, inode.root, inode.depth), Blks(vol.disk, inode.root, inode.depth))
    ensures KeepsOthers(old(vol.disk), vol.disk, old(Blks(vol.disk, inode.root, inode.depth)))
    ensures forall k :: KeyLeft(old(NodeAt(vol.disk, inode.root, path, i)), k) ==> KeysAre(vol.disk, inode.root, path, 0, i, k)
  {
    ghost var d0 := vol.disk;
    ghost var exts, blks := Exts(vol.disk, inode.root, inode.depth), Blks(vol.disk, inode.root, inode.depth);
    var c, border := UnlinkFirst(vol, inode, path, i);
    FreeNode(inode, alloc, c, others, s0, exts, blks);
    ghost var d := vol.disk;
    PropagateKey(vol, inode, path, i, border);
    KeepsMore(d, vol.disk, blks - {c}, blks);
    KeepsTwice(d0, d, vol.disk, blks, blks);
  }

  lemma KeepsMore(d: Disk, d': Disk, some: set<nat>, all: set<nat>)
    requires KeepsOthers(d, d', some) && some <= all
    ensures KeepsOthers(d, d', all)
  {
  }

  // ---------------------------------------------------------------- emptying a leaf

  /** `rest` is `all` without the first `k` extents of a leaf. */
  ghost predicate Remaining(all: set<Extent>, exts: seq<Extent>, k: nat, rest: set<Extent>) {
    && k <= |exts| && rest <= all
    && (forall i :: 0 <= i < k ==> exts[i] !in rest)
    && (forall i :: k <= i < |exts| ==> exts[i] in rest)
    && (forall e :: e in all && e !in exts ==> e in rest)
  }

  lemma OneLess(all: set<Extent>, exts: seq<Extent>, k: nat, rest: set<Extent>, lo: int, hi: int)
    requires k < |exts| && SortedExts(exts, lo, hi) && Remaining(all, exts, k, rest)
    ensures exts[k] in rest && Remaining(all, exts, k + 1, rest - {exts[k]})
  {
    forall i | k < i < |exts|
      ensures exts[i] != exts[k]
    {
      assert exts[k].End() <= exts[i].block;
    }
  }

  lemma NoneLeft(all: set<Extent>, exts: seq<Extent>, rest: set<Extent>)
    requires Remaining(all, exts, |exts|, rest)
    ensures rest == all - Elems(exts)
  {
  }

  /** No extent of the leaf starts past the leaf's last block. */
  lemma NonePast(exts: seq<Extent>, lo: int, hi: int)
    requires |exts| > 0 && SortedExts(exts, lo, hi)
    ensures forall k :: 0 <= k < |exts| ==> exts[k].block <= exts[|exts| - 1].End() - 1
  {
    forall k | 0 <= k < |exts|
      ensures exts[k].block <= exts[|exts| - 1].End() - 1
    {
      assert k < |exts| - 1 ==> exts[k].End() <= exts[|exts| - 1].block;
    }
  }

  /** Frees the blocks of all extents of a leaf. */
  method FreeExtents(inode: Inode, alloc: BlockAllocator, exts: seq<Extent>, ghost lo: int, ghost hi: int,
                     ghost others: set<nat>, ghost s0: Ledger, ghost all: set<Extent>, ghost blks: set<nat>)
    requires |exts| > 0 && SortedExts(exts, lo, hi) && Elems(exts) <= all
    requires alloc.Valid()
    requires Books(alloc.geo, alloc.used, alloc.totalFree, inode.blocks, others, s0, all, blks)
    modifies inode`blocks, alloc`bitmaps, alloc`groupFree, alloc`totalFree, alloc`used
    ensures alloc.Valid()
    ensures Books(alloc.geo, alloc.used, alloc.totalFree, inode.blocks, others, s0, all - Elems(exts), blks)
  {
    var to := exts[|exts| - 1].End() - 1;
    var k := 0;
    NonePast(exts, lo, hi);
    ghost var rest := all;
    while k < |exts| && exts[k].block <= to
      invariant alloc.Valid() && Remaining(all, exts, k, rest)
      invariant Books(alloc.geo, alloc.used, alloc.totalFree, inode.blocks, others, s0, rest, blks)
    {
      OneLess(all, exts, k, rest, lo, hi);
      FreeOneExtent(inode, alloc, exts[k], others, s0, rest, blks);
      k, rest := k + 1, rest - {exts[k]};
    }
    NoneLeft(all, exts, rest);
  }

  method FreeOneExtent(inode: Inode, alloc: BlockAllocator, e: Extent, ghost others: set<nat>, ghost s0: Ledger,
                       ghost exts: set<Extent>, ghost blks: set<nat>)
    requires alloc.Valid() && e in exts
    requires Books(alloc.geo, alloc.used, alloc.totalFree, inode.blocks, others, s0, exts, blks)
    modifies inode`blocks, alloc`bitmaps, alloc`groupFree, alloc`totalFree, alloc`used
    ensures alloc.Valid()
    ensures Books(alloc.geo, alloc.used, alloc.totalFree, inode.blocks, others, s0, exts - {e}, blks)
  {
    FreeExtent(alloc.geo, alloc.used, others, exts, blks, e);
    FreeableInUse(alloc.geo, alloc.used, e.start, e.Len());
    TallyRun(s0, alloc.used, alloc.totalFree, inode.blocks, e.start, e.Len());
    alloc.FreeBlocks(inode, e.start, e.Len());
  }

  lemma FreeableInUse(geo: Geometry, used: set<nat>, b: nat, len: nat)
    requires Freeable(geo, used, b, len)
    ensures Run(b, len) <= used
  {
  }

  /** The tree after the leaf where the walk is was emptied. */
  lemma Emptied(d: Disk, d': Disk, cap: nat, root: Node, root': Node, depth: nat, path: seq<Step>)
    requires Walking(d, cap, root, depth, path, depth) && NodeAt(d, root, path, depth).Leaf?
    requires Put(d, d', root, root', path, depth, NodeAt(d, root, path, depth).(exts := []))
    ensures Walking(d', cap, root', depth, path, depth)
    ensures Exts(d', root', depth) == Exts(d, root, depth) - Elems(NodeAt(d, root, path, depth).exts)
    ensures Blks(d', root', depth) == Blks(d, root, depth)
  {
    var E := Here(path, depth);
    var n := NodeAt(d, root, path, depth);
    var n' := n.(exts := []);
    GoodAt(d, cap, E, root, depth, 0, path, depth, 0, 0, MAX_BLOCKS);
    if depth > 0 {
      GoodSubAt(d, cap, E, root, depth, 0, path, depth, 1, 0, MAX_BLOCKS);
    }
    assert Exts(d, n', 0) == {} && Exts(d, n, 0) == Elems(n.exts);
    PutGood(d, d', cap, E, root, root', depth, path, depth, 0, n');
    PutPath(d, d', cap, E, root, root', depth, path, depth, 0, n', depth);
    PutTogether(Blks(d, root, depth), Blks(d, n, 0));
  }

  /** Frees the extents of the leaf where the walk is and empties it. */
  method ClearLeaf(vol: Volume, inode: Inode, alloc: BlockAllocator, path: seq<Step>, i: nat,
                   ghost others: set<nat>, ghost s0: Ledger)
    requires i == inode.depth && Walking(vol.disk, vol.cap, inode.root, inode.depth, path, i)
    requires NodeAt(vol.disk, inode.root, path, i).Count() > 0
    requires alloc.Valid()
    requires Books(alloc.geo, alloc.used, alloc.totalFree, inode.blocks, others, s0,
                   Exts(vol.disk, inode.root, inode.depth), Blks(vol.disk, inode.root, inode.depth))
    modifies vol`disk, inode`root, inode`blocks, alloc`bitmaps, alloc`groupFree, alloc`totalFree, alloc`used
    ensures alloc.Valid()
    ensures Books(alloc.geo, alloc.used, alloc.totalFree, inode.blocks, others, s0,
                  Exts(vol.disk, inode.root, inode.depth), Blks(vol.disk, inode.root, inode.depth))
    ensures Walking(vol.disk, vol.cap, inode.root, inode.depth, path, i)
    ensures var n := NodeAt(vol.disk, inode.root, path, i); n.Leaf? && n.Count() == 0
    ensures Blks(vol.disk, inode.root, inode.depth) == old(Blks(vol.disk, inode.root, inode.depth))
    ensures KeepsOthers(old(vol.disk), vol.disk, old(Blks(vol.disk, inode.root, inode.depth)))
    ensures i == 0 ==> vol.disk == old(vol.disk)
  {
    ghost var exts, blks := Exts(vol.disk, inode.root, inode.depth), Blks(vol.disk, inode.root, inode.depth);
    ghost var lo, hi := LeafHere(vol.disk, vol.cap, inode.root, inode.depth, path);
    var leaf := NodeAt(vol.disk, inode.root, path, i);
    FreeExtents(inode, alloc, leaf.exts, lo, hi, others, s0, exts, blks);
    EmptyLeaf(vol, inode, path, i);
  }

  /** Sets the number of entries of the leaf where the walk is to zero. */
  method EmptyLeaf(vol: Volume, inode: Inode, path: seq<Step>, i: nat)
    requires i == inode.depth && Walking(vol.disk, vol.cap, inode.root, inode.depth, path, i)
    requires NodeAt(vol.disk, inode.root, path, i).Leaf?
    modifies vol`disk, inode`root
    ensures Walking(vol.disk, vol.cap, inode.root, inode.depth, path, i)
    ensures var n := NodeAt(vol.disk, inode.root, path, i); n.Leaf? && n.Count() == 0
    ensures Exts(vol.disk, inode.root, inode.depth) == old(Exts(vol.disk, inode.root, inode.depth))
            - Elems(old(NodeAt(vol.disk, inode.root, path, i)).exts)
    ensures Blks(vol.disk, inode.root, inode.depth) == old(Blks(vol.disk, inode.root, inode.depth))
    ensures KeepsOthers(old(vol.disk), vol.disk, old(Blks(vol.disk, inode.root, inode.depth)))
    ensures i == 0 ==> vol.disk == old(vol.disk)
  {
    ghost var d, root, depth := vol.disk, inode.root, inode.depth;
    var n' := NodeAt(vol.disk, inode.root, path, i).(exts := []);
    PutNode(vol, inode, path, i, n');
    Emptied(d, vol.disk, vol.cap, root, inode.root, depth, path);
    PutKeeps(d, d, vol.disk, vol.cap, Here(path, depth), root, inode.root, depth, path, depth, depth, n', Blks(d, root, depth));
  }

  lemma LeafHere(d: Disk, cap: nat, root: Node, depth: nat, path: seq<Step>) returns (lo: int, hi: int)
    requires Walking(d, cap, root, depth, path, depth)
    ensures var n := NodeAt(d, root, path, depth); n.Leaf? && Elems(n.exts) <= Exts(d, root, depth) && SortedExts(n.exts, lo, hi)
  {
    var n := NodeAt(d, root, path, depth);
    lo, hi := LoAt(d, root, 0, path, depth, 0), HiAt(d, root, 0, path, depth, MAX_BLOCKS);
    GoodAt(d, cap, Here(path, depth), root, depth, 0, path, depth, 0, 0, MAX_BLOCKS);
    assert Exts(d, n, 0) == Elems(n.exts);
  }

  // ---------------------------------------------------------------- the walk as a whole

  /** Going down to the first child of the node where the walk is. */
  lemma Descend(d: Disk, cap: nat, root: Node, depth: nat, path: seq<Step>, path': seq<Step>, i: nat)
    requires Walking(d, cap, root, depth, path, i) && i < depth && NodeAt(d, root, path, i).Count() > 0
    requires NodeAt(d, root, path, i).Index? && path' == path[i + 1 := Step(NodeAt(d, root, path, i).ents[0].ptr, 0)]
    ensures Walking(d, cap, root, depth, path', i + 1) && NodeAt(d, root, path', i + 1).Count() > 0
  {
    var n := NodeAt(d, root, path, i);
    var c := n.ents[0].ptr;
    var lo, hi := LoAt(d, root, 0, path, i, 0), HiAt(d, root, 0, path, i, MAX_BLOCKS);
    AllowEmpty(d, cap, Here(path, i), {}, root, depth, 0, MAX_BLOCKS);
    GoodAt(d, cap, {}, root, depth, 0, path, i, depth - i, 0, MAX_BLOCKS);
    KidIsGood(d, cap, {}, n, depth - i, lo, hi, 0);
    AllowEmpty(d, cap, {}, {c}, root, depth, 0, MAX_BLOCKS);
    PrefixChain(d, root, 0, path, path', i);
    NoLower(d, cap, root, depth, path, i);
    assert NodeAt(d, root, path', i) == n;
  }

  /** Block 0 is never beyond the first entry. */
  lemma NoLower(d: Disk, cap: nat, root: Node, depth: nat, path: seq<Step>, i: nat)
    requires Walking(d, cap, root, depth, path, i) && i < depth && NodeAt(d, root, path, i).Count() > 0
    ensures NodeAt(d, root, path, i).Index? && Chosen(NodeAt(d, root, path, i).ents, 0, 0)
  {
    var n := NodeAt(d, root, path, i);
    GoodAt(d, cap, Here(path, i), root, depth, 0, path, i, depth - i, 0, MAX_BLOCKS);
    LowNat(d, root, path, i);
    forall j | 0 < j < |n.ents|
      ensures 0 < n.ents[j].key
    {
      assert n.ents[0].key < n.ents[j].key;
    }
  }

  lemma LowNat(d: Disk, root: Node, path: seq<Step>, i: nat)
    requires Chain(d, root, 0, path, i)
    ensures LoAt(d, root, 0, path, i, 0) >= 0
  {
  }

  lemma FirstKeyLowest(ents: seq<IndexEntry>, lo: int, hi: int, pos: nat)
    requires SortedKeys(ents, lo, hi) && lo >= 0 && pos < |ents|
    ensures pos > 0 ==> ents[pos].key > 0
  {
    if pos > 0 {
      assert ents[0].key < ents[pos].key;
    }
  }

  lemma FirstExtentLowest(exts: seq<Extent>, lo: int, hi: int, pos: nat)
    requires SortedExts(exts, lo, hi) && lo >= 0 && pos < |exts|
    ensures pos > 0 ==> exts[pos].block > 0
  {
    if pos > 0 {
      assert exts[0].End() <= exts[pos].block;
    }
  }

  /** The lookup of block 0 takes the first entry everywhere. */
  lemma {:induction false} FirstEverywhere(d: Disk, cap: nat, root: Node, depth: nat, path: seq<Step>, i: nat, h: nat)
    requires GoodTree(d, cap, root, depth) && Chain(d, root, 0, path, i) && i + h == depth
    ensures forall j :: 0 <= j < i ==> path[j].pos == 0
    decreases i
  {
    if i > 0 {
      FirstEverywhere(d, cap, root, depth, path, i - 1, h + 1);
      GoodAt(d, cap, {}, root, depth, 0, path, i - 1, h + 1, 0, MAX_BLOCKS);
      LowNat(d, root, path, i - 1);
      var ents := NodeAt(d, root, path, i - 1).ents;
      FirstKeyLowest(ents, LoAt(d, root, 0, path, i - 1, 0), HiAt(d, root, 0, path, i - 1, MAX_BLOCKS), path[i - 1].pos);
    }
  }

  /** A path that finds block 0 is where the walk begins. */
  lemma WalkBegins(d: Disk, cap: nat, root: Node, depth: nat, path: seq<Step>)
    requires GoodTree(d, cap, root, depth) && Found(d, root, depth, 0, path)
    requires 0 in MapOf(Exts(d, root, depth))
    ensures Walking(d, cap, root, depth, path, depth) && NodeAt(d, root, path, depth).Count() > 0
  {
    FoundNothing(d, cap, root, depth, 0, path);
    var exts := NodeAt(d, root, path, depth).exts;
    FirstEverywhere(d, cap, root, depth, path, depth, 0);
    GoodAt(d, cap, {}, root, depth, 0, path, depth, 0, 0, MAX_BLOCKS);
    LowNat(d, root, path, depth);
    FirstExtentLowest(exts, LoAt(d, root, 0, path, depth, 0), HiAt(d, root, 0, path, depth, MAX_BLOCKS), path[depth].pos);
    AllowEmpty(d, cap, {}, Here(path, depth), root, depth, 0, MAX_BLOCKS);
  }

  /** An index node is left to remove from, unless it is empty. */
  predicate MoreToRemove(n: Node) {
    n.Index? && |n.ents| > 0
  }

  /** Walks the tree from its first leaf, freeing everything. */
  method RemoveAll(vol: Volume, inode: Inode, alloc: BlockAllocator, path0: seq<Step>,
                   ghost others: set<nat>, ghost s0: Ledger)
    requires Walking(vol.disk, vol.cap, inode.root, inode.depth, path0, inode.depth)
    requires NodeAt(vol.disk, inode.root, path0, inode.depth).Count() > 0
    requires alloc.Valid()
    requires Books(alloc.geo, alloc.used, alloc.totalFree, inode.blocks, others, s0,
                   Exts(vol.disk, inode.root, inode.depth), Blks(vol.disk, inode.root, inode.depth))
    modifies vol`disk, inode`root, inode`blocks, alloc`bitmaps, alloc`groupFree, alloc`totalFree, alloc`used
    ensures alloc.Valid() && inode.root.Count() == 0
    ensures alloc.used == others && Tallied(s0, alloc.used, alloc.totalFree, inode.blocks)
    ensures KeepsOthers(old(vol.disk), vol.disk, old(Blks(vol.disk, inode.root, inode.depth)))
  {
    ghost var d0, all := vol.disk, Blks(vol.disk, inode.root, inode.depth);
    var path := path0;
    var i: int := inode.depth;
    while i >= 0
      invariant -1 <= i <= inode.depth && alloc.Valid()
      invariant i >= 0 ==> Walking(vol.disk, vol.cap, inode.root, inode.depth, path, i)
      invariant i == inode.depth ==> NodeAt(vol.disk, inode.root, path, i).Count() > 0
      invariant i < 0 ==> inode.root.Count() == 0
      invariant Books(alloc.geo, alloc.used, alloc.totalFree, inode.blocks, others, s0,
                      Exts(vol.disk, inode.root, inode.depth), Blks(vol.disk, inode.root, inode.depth))
      invariant Blks(vol.disk, inode.root, inode.depth) <= all && KeepsOthers(d0, vol.disk, all)
      decreases if i < 0 then 0 else 1, |Blks(vol.disk, inode.root, inode.depth)|, inode.depth - i
    {
      path, i := WalkStep(vol, inode, alloc, path, i, others, s0, d0, all, Blks(vol.disk, inode.root, inode.depth));
    }
    AllGone(alloc.geo, alloc.used, alloc.totalFree, inode.blocks, others, s0, vol.disk, inode.root, inode.depth);
  }

  lemma AllGone(geo: Geometry, used: set<nat>, free: int, blocks: int, others: set<nat>, s0: Ledger, d: Disk,
                root: Node, depth: nat)
    requires root.Count() == 0 && Books(geo, used, free, blocks, others, s0, Exts(d, root, depth), Blks(d, root, depth))
    ensures used == others && Tallied(s0, used, free, blocks)
  {
    EmptyRoot(d, root, depth);
    NothingOwned(used, others);
  }

  lemma EmptyRoot(d: Disk, root: Node, depth: nat)
    requires root.Count() == 0
    ensures Exts(d, root, depth) == {} && Blks(d, root, depth) == {}
  {
  }

  /** Where a turn of the walk leaves the tree: somewhere else in it, with fewer blocks or one level deeper, or done. */
  ghost predicate Progress(d0: Disk, d: Disk, cap: nat, root: Node, depth: nat, path: seq<Step>, i: int, all: set<nat>,
                        blks: set<nat>, i0: nat) {
    && -1 <= i <= depth
    && (i >= 0 ==> Walking(d, cap, root, depth, path, i))
    && (i == depth ==> NodeAt(d, root, path, i).Count() > 0)
    && (i < 0 ==> root.Count() == 0)
    && Blks(d, root, depth) <= all && KeepsOthers(d0, d, all)
    && (i < 0 || |Blks(d, root, depth)| < |blks| || (Blks(d, root, depth) == blks && i == i0 + 1))
  }

  /** The block `c` was unlinked and the walk goes up to level `i`. */
  lemma MovedUp(d0: Disk, d: Disk, d': Disk, cap: nat, root': Node, depth: nat, path: seq<Step>, i: nat, all: set<nat>,
                blks: set<nat>, c: nat)
    requires Walking(d', cap, root', depth, path, i) && i < depth
    requires c in blks && Blks(d', root', depth) == blks - {c}
    requires KeepsOthers(d, d', blks) && blks <= all && KeepsOthers(d0, d, all)
    ensures Progress(d0, d', cap, root', depth, path, i, all, blks, i + 1)
  {
    KeepsMore(d, d', blks, all);
    KeepsTwice(d0, d, d', all, all);
    assert |blks - {c}| < |blks|;
  }

  /** Nothing is left in the tree: the walk is over. */
  lemma MovedOut(d0: Disk, d: Disk, d': Disk, cap: nat, root': Node, depth: nat, path: seq<Step>, all: set<nat>, blks: set<nat>,
                 i0: nat)
    requires root'.Count() == 0
    requires KeepsOthers(d, d', blks) && blks <= all && KeepsOthers(d0, d, all)
    ensures Progress(d0, d', cap, root', depth, path, -1, all, blks, i0)
  {
    EmptyRoot(d', root', depth);
    KeepsMore(d, d', blks, all);
    KeepsTwice(d0, d, d', all, all);
  }

  /** The walk goes down to level `i + 1`. */
  lemma MovedDown(d0: Disk, d: Disk, cap: nat, root: Node, depth: nat, path: seq<Step>, path': seq<Step>, i: nat, all: set<nat>)
    requires Walking(d, cap, root, depth, path, i) && i < depth && MoreToRemove(NodeAt(d, root, path, i))
    requires path' == path[i + 1 := Step(NodeAt(d, root, path, i).ents[0].ptr, 0)]
    requires Blks(d, root, depth) <= all && KeepsOthers(d0, d, all)
    ensures Progress(d0, d, cap, root, depth, path', i + 1, all, Blks(d, root, depth), i)
  {
    Descend(d, cap, root, depth, path, path', i);
  }

  /** One turn of the walk: clear a leaf, or turn at an index node. */
  method WalkStep(vol: Volume, inode: Inode, alloc: BlockAllocator, path0: seq<Step>, i0: nat,
                  ghost others: set<nat>, ghost s0: Ledger, ghost d0: Disk, ghost all: set<nat>, ghost blks: set<nat>)
    returns (path: seq<Step>, i: int)
    requires Walking(vol.disk, vol.cap, inode.root, inode.depth, path0, i0) && alloc.Valid()
    requires i0 == inode.depth ==> NodeAt(vol.disk, inode.root, path0, i0).Count() > 0
    requires Books(alloc.geo, alloc.used, alloc.totalFree, inode.blocks, others, s0,
                   Exts(vol.disk, inode.root, inode.depth), Blks(vol.disk, inode.root, inode.depth))
    requires blks == Blks(vol.disk, inode.root, inode.depth) && blks <= all && KeepsOthers(d0, vol.disk, all)
    modifies vol`disk, inode`root, inode`blocks, alloc`bitmaps, alloc`groupFree, alloc`totalFree, alloc`used
    ensures alloc.Valid()
    ensures Books(alloc.geo, alloc.used, alloc.totalFree, inode.blocks, others, s0,
                  Exts(vol.disk, inode.root, inode.depth), Blks(vol.disk, inode.root, inode.depth))
    ensures Progress(d0, vol.disk, vol.cap, inode.root, inode.depth, path, i, all, blks, i0)
  {
    path := path0;
    if i0 == inode.depth {
      i := RemoveLeaf(vol, inode, alloc, path, i0, others, s0, d0, all, blks);
    } else {
      path, i := IndexTurn(vol, inode, alloc, path, i0, others, s0, d0, all, blks);
    }
  }

  /** The turn at an index node: go down, or unlink the empty node and go up. */
  method IndexTurn(vol: Volume, inode: Inode, alloc: BlockAllocator, path0: seq<Step>, i0: nat,
                   ghost others: set<nat>, ghost s0: Ledger, ghost d0: Disk, ghost all: set<nat>, ghost blks: set<nat>)
    returns (path: seq<Step>, i: int)
    requires Walking(vol.disk, vol.cap, inode.root, inode.depth, path0, i0) && alloc.Valid() && i0 < inode.depth
    requires Books(alloc.geo, alloc.used, alloc.totalFree, inode.blocks, others, s0,
                   Exts(vol.disk, inode.root, inode.depth), Blks(vol.disk, inode.root, inode.depth))
    requires blks == Blks(vol.disk, inode.root, inode.depth) && blks <= all && KeepsOthers(d0, vol.disk, all)
    modifies vol`disk, inode`root, inode`blocks, alloc`bitmaps, alloc`groupFree, alloc`totalFree, alloc`used
    ensures alloc.Valid()
    ensures Books(alloc.geo, alloc.used, alloc.totalFree, inode.blocks, others, s0,
                  Exts(vol.disk, inode.root, inode.depth), Blks(vol.disk, inode.root, inode.depth))
    ensures Progress(d0, vol.disk, vol.cap, inode.root, inode.depth, path, i, all, blks, i0)
  {
    path := path0;
    IndexHere(vol.disk, vol.cap, inode.root, inode.depth, path, i0);
    if MoreToRemove(NodeAt(vol.disk, inode.root, path, i0)) {
      path, i := GoDown(vol, inode, path, i0, d0, all);
    } else if i0 > 0 {
      i := RemoveIdxAbove(vol, inode, alloc, path, i0, others, s0, d0, all, blks);
    } else {
      i := -1;
      MovedOut(d0, vol.disk, vol.disk, vol.cap, inode.root, inode.depth, path, all, blks, i0);
    }
  }

  /** Down to the first child of a non-empty index node. */
  method GoDown(vol: Volume, inode: Inode, path0: seq<Step>, i0: nat, ghost d0: Disk, ghost all: set<nat>)
    returns (path: seq<Step>, i: int)
    requires Walking(vol.disk, vol.cap, inode.root, inode.depth, path0, i0) && i0 < inode.depth
    requires MoreToRemove(NodeAt(vol.disk, inode.root, path0, i0))
    requires Blks(vol.disk, inode.root, inode.depth) <= all && KeepsOthers(d0, vol.disk, all)
    ensures Progress(d0, vol.disk, vol.cap, inode.root, inode.depth, path, i, all, Blks(vol.disk, inode.root, inode.depth), i0)
  {
    path, i := path0[i0 + 1 := Step(NodeAt(vol.disk, inode.root, path0, i0).ents[0].ptr, 0)], i0 + 1;
    MovedDown(d0, vol.disk, vol.cap, inode.root, inode.depth, path0, path, i0, all);
  }

  /** The turn at a leaf: frees its extents, empties it, and unlinks it from the level above. */
  method RemoveLeaf(vol: Volume, inode: Inode, alloc: BlockAllocator, path: seq<Step>, i: nat,
                    ghost others: set<nat>, ghost s0: Ledger, ghost d0: Disk, ghost all: set<nat>, ghost blks: set<nat>)
    returns (up: int)
    requires Walking(vol.disk, vol.cap, inode.root, inode.depth, path, i) && alloc.Valid() && i == inode.depth
    requires NodeAt(vol.disk, inode.root, path, i).Count() > 0
    requires Books(alloc.geo, alloc.used, alloc.totalFree, inode.blocks, others, s0,
                   Exts(vol.disk, inode.root, inode.depth), Blks(vol.disk, inode.root, inode.depth))
    requires blks == Blks(vol.disk, inode.root, inode.depth) && blks <= all && KeepsOthers(d0, vol.disk, all)
    modifies vol`disk, inode`root, inode`blocks, alloc`bitmaps, alloc`groupFree, alloc`totalFree, alloc`used
    ensures alloc.Valid()
    ensures Books(alloc.geo, alloc.used, alloc.totalFree, inode.blocks, others, s0,
                  Exts(vol.disk, inode.root, inode.depth), Blks(vol.disk, inode.root, inode.depth))
    ensures Progress(d0, vol.disk, vol.cap, inode.root, inode.depth, path, up, all, blks, i)
  {
    ghost var d := vol.disk;
    ClearLeaf(vol, inode, alloc, path, i, others, s0);
    KeepsMore(d, vol.disk, blks, all);
    KeepsTwice(d0, d, vol.disk, all, all);
    if i > 0 {
      up := RemoveIdxAbove(vol, inode, alloc, path, i, others, s0, d0, all, blks);
    } else {
      up := -1;
      MovedOut(d0, vol.disk, vol.disk, vol.cap, inode.root, inode.depth, path, all, blks, i);
    }
  }

  /** The turn at an empty node below the root: unlinks it from the level above. */
  method RemoveIdxAbove(vol: Volume, inode: Inode, alloc: BlockAllocator, path: seq<Step>, i: nat,
                        ghost others: set<nat>, ghost s0: Ledger, ghost d0: Disk, ghost all: set<nat>, ghost blks: set<nat>)
    returns (up: int)
    requires Walking(vol.disk, vol.cap, inode.root, inode.depth, path, i) && alloc.Valid() && 0 < i <= inode.depth
    requires NodeAt(vol.disk, inode.root, path, i).Count() == 0
    requires Books(alloc.geo, alloc.used, alloc.totalFree, inode.blocks, others, s0,
                   Exts(vol.disk, inode.root, inode.depth), Blks(vol.disk, inode.root, inode.depth))
    requires blks == Blks(vol.disk, inode.root, inode.depth) && blks <= all && KeepsOthers(d0, vol.disk, all)
    modifies vol`disk, inode`root, inode`blocks, alloc`bitmaps, alloc`groupFree, alloc`totalFree, alloc`used
    ensures alloc.Valid()
    ensures Books(alloc.geo, alloc.used, alloc.totalFree, inode.blocks, others, s0,
                  Exts(vol.disk, inode.root, inode.depth), Blks(vol.disk, inode.root, inode.depth))
    ensures Progress(d0, vol.disk, vol.cap, inode.root, inode.depth, path, up, all, blks, i)
  {
    up := i - 1;
    ghost var d := vol.disk;
    RemoveIdx(vol, inode, alloc, path, i - 1, others, s0);
    MovedUp(d0, d, vol.disk, vol.cap, inode.root, inode.depth, path, up, all, blks, path[i].blk);
  }

  lemma IndexHere(d: Disk, cap: nat, root: Node, depth: nat, path: seq<Step>, i: nat)
    requires Walking(d, cap, root, depth, path, i) && i < depth
    ensures NodeAt(d, root, path, i).Index?
  {
    GoodAt(d, cap, Here(path, i), root, depth, 0, path, i, depth - i, 0, MAX_BLOCKS);
  }

  // ---------------------------------------------------------------- truncating to zero

  /** What truncating to zero makes of a tree: an empty one if block 0 was mapped, else the same. */
  ghost predicate Truncated(d: Disk, root: Node, depth: nat, d': Disk, root': Node, depth': nat) {
    if 0 in MapOf(Exts(d, root, depth)) then root' == Leaf([], ROOT_CAP) && depth' == 0
    else d' == d && root' == root && depth' == depth
  }

  /**
   Truncates a file to zero.  When the file maps block 0, every data block and every tree block
   of it is freed exactly once: what stays in use is what others own, the free count grows by as
   much as the number of used blocks falls, and the file is left with an empty depth-0 root.
   When block 0 is a hole, the source returns early and nothing changes.
   */
  method RemoveSpace(vol: Volume, inode: Inode, alloc: BlockAllocator, ghost others: set<nat>)
    requires GoodTree(vol.disk, vol.cap, inode.root, inode.depth) && alloc.Valid()
    requires Owner(alloc.geo, Exts(vol.disk, inode.root, inode.depth), Blks(vol.disk, inode.root, inode.depth))
    requires Split(alloc.used, others, Exts(vol.disk, inode.root, inode.depth), Blks(vol.disk, inode.root, inode.depth))
    modifies vol`disk, inode`root, inode`depth, inode`blocks, alloc`bitmaps, alloc`groupFree, alloc`totalFree, alloc`used
    ensures alloc.Valid()
    ensures KeepsOthers(old(vol.disk), vol.disk, old(Blks(vol.disk, inode.root, inode.depth)))
    ensures Truncated(old(vol.disk), old(inode.root), old(inode.depth), vol.disk, inode.root, inode.depth)
    ensures inode.root.Count() == 0 <==> 0 in old(TreeMap(vol, inode)) || old(TreeMap(vol, inode)) == map[]
    ensures 0 in old(TreeMap(vol, inode)) ==>
              && alloc.used == others
              && alloc.totalFree + |alloc.used| == old(alloc.totalFree) + |old(alloc.used)|
              && inode.blocks - |alloc.used| == old(inode.blocks) - |old(alloc.used)|
    ensures 0 !in old(TreeMap(vol, inode)) ==>
              inode.blocks == old(inode.blocks) && alloc.used == old(alloc.used) && alloc.totalFree == old(alloc.totalFree)
  {
    var path := FindExtent(vol, inode, 0);
    var len, pblk := MappedRun(vol, inode, path, 0, 1);
    EmptyExactly(vol.disk, vol.cap, inode.root, inode.depth);
    if len == 0 {
      return;
    }
    ghost var s0 := Ledger(alloc.used, alloc.totalFree, inode.blocks);
    TallyNone(s0);
    RemoveFound(vol, inode, alloc, path, others, s0);
    TallySum(s0, alloc.used, alloc.totalFree, inode.blocks);
  }

  /** The same, once block 0 was found. */
  method RemoveFound(vol: Volume, inode: Inode, alloc: BlockAllocator, path: seq<Step>, ghost others: set<nat>,
                     ghost s0: Ledger)
    requires GoodTree(vol.disk, vol.cap, inode.root, inode.depth) && alloc.Valid()
    requires Found(vol.disk, inode.root, inode.depth, 0, path) && 0 in TreeMap(vol, inode)
    requires Books(alloc.geo, alloc.used, alloc.totalFree, inode.blocks, others, s0,
                   Exts(vol.disk, inode.root, inode.depth), Blks(vol.disk, inode.root, inode.depth))
    modifies vol`disk, inode`root, inode`depth, inode`blocks, alloc`bitmaps, alloc`groupFree, alloc`totalFree, alloc`used
    ensures alloc.Valid()
    ensures KeepsOthers(old(vol.disk), vol.disk, old(Blks(vol.disk, inode.root, inode.depth)))
    ensures inode.root == Leaf([], ROOT_CAP) && inode.depth == 0
    ensures alloc.used == others && Tallied(s0, alloc.used, alloc.totalFree, inode.blocks)
  {
    WalkBegins(vol.disk, vol.cap, inode.root, inode.depth, path);
    RemoveAll(vol, inode, alloc, path, others, s0);
    if inode.root.Count() == 0 {
      inode.root, inode.depth := Leaf([], ROOT_CAP), 0;
    }
  }

  lemma NothingOwned(used: set<nat>, others: set<nat>)
    requires Split(used, others, {}, {})
    ensures used == others
  {
    assert Data({}) == {};
  }

  /** The root of a well-formed tree is empty exactly when the file maps nothing. */
  lemma EmptyExactly(d: Disk, cap: nat, root: Node, depth: nat)
    requires GoodTree(d, cap, root, depth)
    ensures root.Count() == 0 <==> MapOf(Exts(d, root, depth)) == map[]
  {
    var m := MapOf(Exts(d, root, depth));
    if root.Count() == 0 {
      EmptyRoot(d, root, depth);
      assert m == map[];
    } else {
      var e := SomeExtent(d, cap, {}, root, depth, 0, MAX_BLOCKS);
      GoodDisjoint(d, cap, {}, root, depth, 0, MAX_BLOCKS);
      ExtsInRange(d, cap, {}, root, depth, 0, MAX_BLOCKS);
      MapOfCovered(Exts(d, root, depth), e, e.block);
    }
  }

  /** A file that maps block 1 but not block 0 still maps block 1 after truncation to zero. */
  lemma HoleKeepsFile(d: Disk, d': Disk, root': Node, depth': nat)
    requires Truncated(d, Leaf([Extent(1, 1, 11)], ROOT_CAP), 0, d', root', depth')
    ensures GoodTree(d, ROOT_CAP + 1, Leaf([Extent(1, 1, 11)], ROOT_CAP), 0)
    ensures root' == Leaf([Extent(1, 1, 11)], ROOT_CAP) && 1 in MapOf(Exts(d', root', depth')) && MapOf(Exts(d', root', depth'))[1] == 11
  {
    var e := Extent(1, 1, 11);
    RootMap(d, e);
    assert e.Covers(1) && forall l: nat :: e.Covers(l) ==> l == 1;
  }

  /** A non-empty well-formed node holds an extent. */
  lemma {:induction false} SomeExtent(d: Disk, cap: nat, E: set<nat>, n: Node, depth: nat, lo: int, hi: int) returns (e: Extent)
    requires Good(d, cap, E, n, depth, lo, hi) && n.Count() > 0 && E == {}
    ensures e in Exts(d, n, depth)
    decreases depth
  {
    if depth == 0 {
      e := n.exts[0];
    } else {
      KidIsGood(d, cap, E, n, depth, lo, hi, 0);
      e := SomeExtent(d, cap, E, d[n.ents[0].ptr], depth - 1, n.ents[0].key, Bound(n.ents, 1, hi));
    }
  }
}
