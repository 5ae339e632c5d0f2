/**
 Paths from the root of an extent tree to one of its nodes, and how the tree changes when
 the node at the end of a path is rewritten.

 A path is what the lookup records on its way down: for each level the block of the node
 visited and the position of the entry taken there.  The block of the first step is not
 used, since the root lives in the inode.
 */
module ExtentPaths {
  import opened ExtentNodes

  datatype Step = Step(blk: nat, pos: nat)

  /** The node at level `k` of a path. */
  function NodeAt(d: Disk, root: Node, path: seq<Step>, k: nat): Node
    requires k < |path|
    requires k == 0 || path[k].blk in d
  {
    if k == 0 then root else d[path[k].blk]
  }

  /** `pos` is the entry to follow for `block`: the last key not above it, else the first. */
  predicate Chosen(ents: seq<IndexEntry>, pos: nat, block: nat) {
    && pos < |ents|
    && (pos > 0 ==> ents[pos].key <= block)
    && (forall j :: pos < j < |ents| ==> block < ents[j].key)
  }

  lemma ChosenUnique(ents: seq<IndexEntry>, i: nat, j: nat, block: nat)
    requires Chosen(ents, i, block) && Chosen(ents, j, block)
    ensures i == j
  {
  }

  /** Down to level `k`, each step leads to the next one by following the entry for `block`. */
  ghost predicate Chain(d: Disk, root: Node, block: nat, path: seq<Step>, k: nat)
    decreases k
  {
    && k < |path|
    && (k > 0 ==>
          && Chain(d, root, block, path, k - 1)
          && path[k].blk in d
          && (k > 1 ==> path[k - 1].blk in d)
          && Link(NodeAt(d, root, path, k - 1), block, path[k - 1].pos, path[k].blk))
  }

  predicate Link(n: Node, block: nat, pos: nat, blk: nat) {
    n.Index? && Chosen(n.ents, pos, block) && blk == n.ents[pos].ptr
  }

  ghost function LoAt(d: Disk, root: Node, block: nat, path: seq<Step>, k: nat, lo: int): int
    requires Chain(d, root, block, path, k)
  {
    if k == 0 then lo else NodeAt(d, root, path, k - 1).ents[path[k - 1].pos].key
  }

  ghost function HiAt(d: Disk, root: Node, block: nat, path: seq<Step>, k: nat, hi: int): int
    requires Chain(d, root, block, path, k)
    decreases k
  {
    if k == 0 then hi
    else Bound(NodeAt(d, root, path, k - 1).ents, path[k - 1].pos + 1, HiAt(d, root, block, path, k - 1, hi))
  }

  // ---------------------------------------------------------------- changing the bounds

  lemma {:induction false} Widen(d: Disk, cap: nat, E: set<nat>, n: Node, depth: nat,
                                 lo: int, hi: int, lo': int, hi': int)
    requires Good(d, cap, E, n, depth, lo, hi)
    requires lo' <= lo && hi <= hi'
    ensures Good(d, cap, E, n, depth, lo', hi')
    decreases depth
  {
    if depth > 0 {
      forall i | 0 <= i < |n.ents|
        ensures GoodKid(d, cap, E, n.ents, i, depth, hi')
      {
        KidIsGood(d, cap, E, n, depth, lo, hi, i);
        if i + 1 == |n.ents| {
          Widen(d, cap, E, d[n.ents[i].ptr], depth - 1, n.ents[i].key, hi, n.ents[i].key, hi');
        }
        assert GoodSub(d, cap, E, n.ents[i].ptr, depth, n.ents[i].key, Bound(n.ents, i + 1, hi'));
      }
    }
  }

  /** The lower bound may rise up to the first key. */
  lemma Raise(d: Disk, cap: nat, E: set<nat>, n: Node, depth: nat, lo: int, hi: int, lo': int)
    requires Good(d, cap, E, n, depth, lo, hi)
    requires n.Count() > 0 ==> lo' <= n.FirstKey()
    ensures Good(d, cap, E, n, depth, lo', hi)
  {
    if depth > 0 {
      forall i | 0 <= i < |n.ents|
        ensures lo' <= n.ents[i].key
      {
        assert i > 0 ==> n.ents[0].key < n.ents[i].key;
      }
    } else {
      forall i | 0 <= i < |n.exts|
        ensures lo' <= n.exts[i].block
      {
        assert i > 0 ==> n.exts[0].End() <= n.exts[i].block;
      }
    }
  }

  /** Which blocks may be empty matters only for the blocks of the tree that are empty. */
  lemma {:induction false} AllowEmpty(d: Disk, cap: nat, E: set<nat>, E': set<nat>, n: Node, depth: nat,
                                      lo: int, hi: int)
    requires Good(d, cap, E, n, depth, lo, hi)
    requires forall b :: b in Blks(d, n, depth) && b in E ==> b in E' || (b in d && d[b].Count() > 0)
    ensures Good(d, cap, E', n, depth, lo, hi)
    decreases depth
  {
    if depth > 0 {
      forall i | 0 <= i < |n.ents|
        ensures GoodKid(d, cap, E', n.ents, i, depth, hi)
      {
        var p := n.ents[i].ptr;
        KidIsGood(d, cap, E, n, depth, lo, hi, i);
        AllowEmpty(d, cap, E, E', d[p], depth - 1, n.ents[i].key, Bound(n.ents, i + 1, hi));
        assert p in Sub(d, p, depth);
        assert GoodSub(d, cap, E', p, depth, n.ents[i].key, Bound(n.ents, i + 1, hi));
      }
    }
  }

  // ---------------------------------------------------------------- replacing one child

  ghost predicate Rekeyed(n: Node, n': Node, i: nat, k: nat) {
    n.Index? && i < |n.ents| && n' == n.(ents := n.ents[i := IndexEntry(k, n.ents[i].ptr)])
  }

  /** Outside the subtree of block `p` nothing of `all` changed, and the new subtree uses none of it. */
  ghost predicate OnlyBelow(d: Disk, d': Disk, all: set<nat>, p: nat, h: nat)
    requires h > 0
  {
    && Agree(d, d', all - Sub(d, p, h))
    && Sub(d', p, h) !! (all - Sub(d, p, h))
  }

  lemma OtherKids(d: Disk, d': Disk, cap: nat, E: set<nat>, n: Node, depth: nat, lo: int, hi: int, i: nat, j: nat)
    requires depth > 0
    requires Good(d, cap, E, n, depth, lo, hi)
    requires i < |n.ents| && j < |n.ents| && j != i
    requires OnlyBelow(d, d', Blks(d, n, depth), n.ents[i].ptr, depth)
    ensures GoodSub(d', cap, E, n.ents[j].ptr, depth, n.ents[j].key, Bound(n.ents, j + 1, hi))
    ensures GoodSub(d, cap, E, n.ents[j].ptr, depth, n.ents[j].key, Bound(n.ents, j + 1, hi))
    ensures Sub(d', n.ents[j].ptr, depth) == Sub(d, n.ents[j].ptr, depth)
    ensures SubExts(d', n.ents[j].ptr, depth) == SubExts(d, n.ents[j].ptr, depth)
    ensures Sub(d', n.ents[j].ptr, depth) !! Sub(d', n.ents[i].ptr, depth)
    ensures Sub(d, n.ents[j].ptr, depth) !! Sub(d, n.ents[i].ptr, depth)
  {
    var p, q := n.ents[i].ptr, n.ents[j].ptr;
    KidIsGood(d, cap, E, n, depth, lo, hi, j);
    assert Sub(d, p, depth) !! Sub(d, q, depth);
    assert Sub(d, q, depth) <= Blks(d, n, depth) - Sub(d, p, depth);
    FrameSub(d, d', cap, E, q, depth, n.ents[j].key, Bound(n.ents, j + 1, hi));
  }

  lemma ReplaceKidGood(d: Disk, d': Disk, cap: nat, E: set<nat>, n: Node, n': Node, depth: nat,
                       lo: int, hi: int, lo': int, i: nat, k: nat)
    requires depth > 0
    requires Good(d, cap, E, n, depth, lo, hi)
    requires Rekeyed(n, n', i, k)
    requires lo' <= lo && lo' <= k < Bound(n.ents, i + 1, hi)
    requires i > 0 ==> k >= n.ents[i].key
    requires GoodSub(d', cap, E, n.ents[i].ptr, depth, k, Bound(n.ents, i + 1, hi))
    requires OnlyBelow(d, d', Blks(d, n, depth), n.ents[i].ptr, depth)
    ensures Good(d', cap, E, n', depth, lo', hi)
  {
    forall j | 0 <= j < |n'.ents|
      ensures GoodKid(d', cap, E, n'.ents, j, depth, hi)
    {
      if j == i {
        assert Bound(n'.ents, i + 1, hi) == Bound(n.ents, i + 1, hi);
      } else {
        OtherKids(d, d', cap, E, n, depth, lo, hi, i, j);
        if j + 1 == i {
          Widen(d', cap, E, d'[n.ents[j].ptr], depth - 1, n.ents[j].key, n.ents[i].key, n.ents[j].key, k);
        }
      }
      assert GoodSub(d', cap, E, n'.ents[j].ptr, depth, n'.ents[j].key, Bound(n'.ents, j + 1, hi));
    }
    forall x, y | 0 <= x < y < |n'.ents|
      ensures Sub(d', n'.ents[x].ptr, depth) !! Sub(d', n'.ents[y].ptr, depth)
    {
      if x != i { OtherKids(d, d', cap, E, n, depth, lo, hi, i, x); }
      if y != i { OtherKids(d, d', cap, E, n, depth, lo, hi, i, y); }
      assert Sub(d, n.ents[x].ptr, depth) !! Sub(d, n.ents[y].ptr, depth);
    }
    ReplaceKidKeys(n.ents, n'.ents, lo, hi, lo', i, k);
  }

  lemma ReplaceKidKeys(ents: seq<IndexEntry>, ents': seq<IndexEntry>, lo: int, hi: int, lo': int, i: nat, k: nat)
    requires SortedKeys(ents, lo, hi)
    requires i < |ents| && ents' == ents[i := IndexEntry(k, ents[i].ptr)]
    requires lo' <= lo && lo' <= k < Bound(ents, i + 1, hi)
    requires i > 0 ==> k >= ents[i].key
    ensures SortedKeys(ents', lo', hi)
  {
    forall x, y | 0 <= x < y < |ents'|
      ensures ents'[x].key < ents'[y].key
    {
      assert ents[x].key < ents[y].key;
      if x == i && i + 1 < |ents| {
        assert y > i + 1 ==> ents[i + 1].key < ents[y].key;
      }
    }
  }

  lemma ReplaceKidSets(d: Disk, d': Disk, cap: nat, E: set<nat>, n: Node, n': Node, depth: nat,
                       lo: int, hi: int, i: nat, k: nat)
    requires depth > 0
    requires Good(d, cap, E, n, depth, lo, hi)
    requires Rekeyed(n, n', i, k)
    requires OnlyBelow(d, d', Blks(d, n, depth), n.ents[i].ptr, depth)
    ensures Exts(d', n', depth) == Exts(d, n, depth) - SubExts(d, n.ents[i].ptr, depth) + SubExts(d', n.ents[i].ptr, depth)
    ensures Blks(d', n', depth) == Blks(d, n, depth) - Sub(d, n.ents[i].ptr, depth) + Sub(d', n.ents[i].ptr, depth)
  {
    var p := n.ents[i].ptr;
    assert n'.ents[i].ptr == p;
    forall j | 0 <= j < |n.ents| && j != i
      ensures n'.ents[j].ptr == n.ents[j].ptr
      ensures Sub(d', n.ents[j].ptr, depth) == Sub(d, n.ents[j].ptr, depth)
      ensures SubExts(d', n.ents[j].ptr, depth) == SubExts(d, n.ents[j].ptr, depth)
      ensures Sub(d, n.ents[j].ptr, depth) !! Sub(d, p, depth)
      ensures SubExts(d, n.ents[j].ptr, depth) !! SubExts(d, p, depth)
    {
      OtherKids(d, d', cap, E, n, depth, lo, hi, i, j);
      KidExtsApart(d, cap, E, n, depth, lo, hi, i, j);
    }
  }

  /** Two children hold different extents, since their key ranges do not meet. */
  lemma KidExtsApart(d: Disk, cap: nat, E: set<nat>, n: Node, depth: nat, lo: int, hi: int, i: nat, j: nat)
    requires depth > 0
    requires Good(d, cap, E, n, depth, lo, hi)
    requires i < |n.ents| && j < |n.ents| && i != j
    ensures SubExts(d, n.ents[i].ptr, depth) !! SubExts(d, n.ents[j].ptr, depth)
  {
    KidRange(d, cap, E, n, depth, lo, hi, i);
    KidRange(d, cap, E, n, depth, lo, hi, j);
    BoundMonotone(n.ents, lo, hi, i, j);
    BoundMonotone(n.ents, lo, hi, j, i);
  }

  lemma KidRange(d: Disk, cap: nat, E: set<nat>, n: Node, depth: nat, lo: int, hi: int, i: nat)
    requires depth > 0
    requires Good(d, cap, E, n, depth, lo, hi)
    requires i < |n.ents|
    ensures forall e :: e in SubExts(d, n.ents[i].ptr, depth) ==>
                          e.Len() > 0 && n.ents[i].key <= e.block && e.End() <= Bound(n.ents, i + 1, hi)
  {
    KidIsGood(d, cap, E, n, depth, lo, hi, i);
    ExtsInRange(d, cap, E, d[n.ents[i].ptr], depth - 1, n.ents[i].key, Bound(n.ents, i + 1, hi));
  }

  lemma BoundMonotone(ents: seq<IndexEntry>, lo: int, hi: int, i: nat, j: nat)
    requires SortedKeys(ents, lo, hi)
    requires i < |ents| && j < |ents|
    ensures i < j ==> Bound(ents, i + 1, hi) <= ents[j].key
  {
    if i + 1 < j {
      assert ents[i + 1].key < ents[j].key;
    }
  }

  // ---------------------------------------------------------------- the node at the end of a path

  /** A node on a path of a well-formed tree is well formed within the bounds of the path. */
  lemma {:induction false} GoodAt(d: Disk, cap: nat, E: set<nat>, root: Node, depth: nat, block: nat,
                                  path: seq<Step>, k: nat, h: nat, lo: int, hi: int)
    requires Good(d, cap, E, root, depth, lo, hi)
    requires Chain(d, root, block, path, k) && k + h == depth
    ensures Good(d, cap, E, NodeAt(d, root, path, k), h,
                 LoAt(d, root, block, path, k, lo), HiAt(d, root, block, path, k, hi))
    ensures Blks(d, NodeAt(d, root, path, k), h) <= Blks(d, root, depth)
    ensures Exts(d, NodeAt(d, root, path, k), h) <= Exts(d, root, depth)
    decreases k, 0
  {
    if k > 0 {
      GoodSubAt(d, cap, E, root, depth, block, path, k, h + 1, lo, hi);
    }
  }

  lemma {:induction false} GoodSubAt(d: Disk, cap: nat, E: set<nat>, root: Node, depth: nat, block: nat,
                                     path: seq<Step>, k: nat, h: nat, lo: int, hi: int)
    requires Good(d, cap, E, root, depth, lo, hi)
    requires 0 < k && 0 < h && k + h == depth + 1 && Chain(d, root, block, path, k)
    ensures GoodSub(d, cap, E, path[k].blk, h,
                    LoAt(d, root, block, path, k, lo), HiAt(d, root, block, path, k, hi))
    ensures Sub(d, path[k].blk, h) <= Blks(d, root, depth)
    ensures SubExts(d, path[k].blk, h) <= Exts(d, root, depth)
    decreases k - 1, 1
  {
    var n := NodeAt(d, root, path, k - 1);
    GoodAt(d, cap, E, root, depth, block, path, k - 1, h, lo, hi);
    KidIsGood(d, cap, E, n, h, LoAt(d, root, block, path, k - 1, lo), HiAt(d, root, block, path, k - 1, hi),
              path[k - 1].pos);
    Trans(Sub(d, path[k].blk, h), Blks(d, n, h), Blks(d, root, depth));
    Trans(SubExts(d, path[k].blk, h), Exts(d, n, h), Exts(d, root, depth));
  }

  lemma Trans<T>(x: set<T>, y: set<T>, z: set<T>)
    requires x <= y <= z
    ensures x <= z
  {
  }

  /**
   Rewriting the subtree at the end of a path, within its bounds and without touching any
   other block of the tree, keeps the whole tree well formed; the tree then holds what it held
   before, with the contents of the old subtree exchanged for those of the new one.
   */
  lemma {:induction false} ReplaceAt(d: Disk, d': Disk, cap: nat, E: set<nat>, root: Node, depth: nat, block: nat,
                                     path: seq<Step>, k: nat, h: nat, lo: int, hi: int)
    requires Good(d, cap, E, root, depth, lo, hi)
    requires 0 < k && 0 < h && k + h == depth + 1 && Chain(d, root, block, path, k)
    requires GoodSub(d', cap, E, path[k].blk, h,
                     LoAt(d, root, block, path, k, lo), HiAt(d, root, block, path, k, hi))
    requires OnlyBelow(d, d', Blks(d, root, depth), path[k].blk, h)
    ensures Good(d', cap, E, root, depth, lo, hi)
    ensures Exchanged(d, d', root, depth, path[k].blk, h)
    decreases k
  {
    if k == 1 {
      ReplaceBelow(d, d', cap, E, root, h, lo, hi, path[0].pos, Blks(d, root, h));
    } else {
      ReplaceOne(d, d', cap, E, root, depth, block, path, k, h, lo, hi);
      ReplaceAt(d, d', cap, E, root, depth, block, path, k - 1, h + 1, lo, hi);
      ExchangedUp(d, d', root, depth, path[k - 1].blk, h, path[k].blk);
    }
  }

  /** A block on a path is not part of any subtree further down the path. */
  lemma {:induction false} AncestorOutside(d: Disk, cap: nat, E: set<nat>, root: Node, depth: nat, block: nat,
                                           path: seq<Step>, j: nat, k: nat, h: nat, lo: int, hi: int)
    requires Good(d, cap, E, root, depth, lo, hi)
    requires 0 < j < k && 0 < h && k + h == depth + 1 && Chain(d, root, block, path, k)
    ensures path[j].blk !in Sub(d, path[k].blk, h)
    decreases k
  {
    var n := NodeAt(d, root, path, k - 1);
    GoodSubAt(d, cap, E, root, depth, block, path, k - 1, h + 1, lo, hi);
    KidIsGood(d, cap, E, n, h, LoAt(d, root, block, path, k - 1, lo), HiAt(d, root, block, path, k - 1, hi),
              path[k - 1].pos);
    if j < k - 1 {
      AncestorOutside(d, cap, E, root, depth, block, path, j, k - 1, h + 1, lo, hi);
      assert Blks(d, n, h) <= Sub(d, path[k - 1].blk, h + 1);
    }
  }

  lemma {:induction false} ChainUp(d: Disk, root: Node, block: nat, path: seq<Step>, j: nat, k: nat)
    requires Chain(d, root, block, path, k) && j <= k
    ensures Chain(d, root, block, path, j)
    decreases k
  {
    if j < k {
      ChainUp(d, root, block, path, j, k - 1);
    }
  }

  /** A path depends only on the nodes above its end. */
  lemma {:induction false} PathFrame(d: Disk, d': Disk, root: Node, block: nat, path: seq<Step>, k: nat, lo: int, hi: int)
    requires Chain(d, root, block, path, k)
    requires forall j :: 0 < j < k ==> path[j].blk in d && path[j].blk in d' && d'[path[j].blk] == d[path[j].blk]
    requires k > 0 ==> path[k].blk in d'
    ensures Chain(d', root, block, path, k)
    ensures LoAt(d', root, block, path, k, lo) == LoAt(d, root, block, path, k, lo)
    ensures HiAt(d', root, block, path, k, hi) == HiAt(d, root, block, path, k, hi)
    decreases k
  {
    if k > 0 {
      PathFrame(d, d', root, block, path, k - 1, lo, hi);
    }
  }

  /** The blocks of a path are all different. */
  lemma BlocksApart(d: Disk, cap: nat, E: set<nat>, root: Node, depth: nat, block: nat, path: seq<Step>, j: nat, k: nat,
                    lo: int, hi: int)
    requires Good(d, cap, E, root, depth, lo, hi) && 0 < j < k <= depth && Chain(d, root, block, path, k)
    ensures path[j].blk != path[k].blk
  {
    AncestorOutside(d, cap, E, root, depth, block, path, j, k, depth + 1 - k, lo, hi);
    assert path[k].blk in Sub(d, path[k].blk, depth + 1 - k);
  }

  /** One step up: the change at level `k` seen as a change at level `k - 1`. */
  lemma ReplaceOne(d: Disk, d': Disk, cap: nat, E: set<nat>, root: Node, depth: nat, block: nat,
                   path: seq<Step>, k: nat, h: nat, lo: int, hi: int)
    requires Good(d, cap, E, root, depth, lo, hi)
    requires 1 < k && 0 < h && k + h == depth + 1 && Chain(d, root, block, path, k)
    requires GoodSub(d', cap, E, path[k].blk, h,
                     LoAt(d, root, block, path, k, lo), HiAt(d, root, block, path, k, hi))
    requires OnlyBelow(d, d', Blks(d, root, depth), path[k].blk, h)
    ensures GoodSub(d', cap, E, path[k - 1].blk, h + 1,
                    LoAt(d, root, block, path, k - 1, lo), HiAt(d, root, block, path, k - 1, hi))
    ensures OnlyBelow(d, d', Blks(d, root, depth), path[k - 1].blk, h + 1)
    ensures path[k].blk in d' && path[k - 1].blk in d' && d'[path[k - 1].blk] == d[path[k - 1].blk]
    ensures Nested(d, d', root, depth, path[k - 1].blk, h, path[k].blk)
  {
    var n, i, pb := NodeAt(d, root, path, k - 1), path[k - 1].pos, path[k - 1].blk;
    GoodSubAt(d, cap, E, root, depth, block, path, k - 1, h + 1, lo, hi);
    ReplaceStep(d, d', cap, E, n, h, LoAt(d, root, block, path, k - 1, lo), HiAt(d, root, block, path, k - 1, hi),
                i, pb, Blks(d, root, depth));
  }

  /** The subtree at `p` is part of the one at `pb`, itself part of the tree. */
  ghost predicate Nested(d: Disk, d': Disk, root: Node, depth: nat, pb: nat, h: nat, p: nat)
    requires h > 0 && pb in d
  {
    && Exchanged(d, d', d[pb], h, p, h)
    && Sub(d, p, h) <= Blks(d, d[pb], h)
    && SubExts(d, p, h) <= Exts(d, d[pb], h)
    && Sub(d, pb, h + 1) <= Blks(d, root, depth)
    && SubExts(d, pb, h + 1) <= Exts(d, root, depth)
    && pb !in Sub(d, p, h)
  }

  lemma ReplaceStep(d: Disk, d': Disk, cap: nat, E: set<nat>, n: Node, h: nat, lo: int, hi: int, i: nat,
                    pb: nat, all: set<nat>)
    requires h > 0 && pb in d && d[pb] == n
    requires GoodSub(d, cap, E, pb, h + 1, lo, hi)
    requires Sub(d, pb, h + 1) <= all
    requires n.Index? && i < |n.ents|
    requires GoodSub(d', cap, E, n.ents[i].ptr, h, n.ents[i].key, Bound(n.ents, i + 1, hi))
    requires OnlyBelow(d, d', all, n.ents[i].ptr, h)
    ensures GoodSub(d', cap, E, pb, h + 1, lo, hi)
    ensures OnlyBelow(d, d', all, pb, h + 1)
    ensures pb in d' && d'[pb] == d[pb]
    ensures Exchanged(d, d', n, h, n.ents[i].ptr, h)
    ensures Sub(d, n.ents[i].ptr, h) <= Blks(d, n, h)
    ensures SubExts(d, n.ents[i].ptr, h) <= Exts(d, n, h)
    ensures pb !in Sub(d, n.ents[i].ptr, h)
  {
    Trans(Blks(d, n, h), Sub(d, pb, h + 1), all);
    ReplaceBelow(d, d', cap, E, n, h, lo, hi, i, all);
    ReplaceUp(d, d', cap, E, pb, h, lo, hi, n.ents[i].ptr, all);
  }

  ghost predicate Exchanged(d: Disk, d': Disk, n: Node, depth: nat, p: nat, h: nat)
    requires h > 0
  {
    && Exts(d', n, depth) == Exts(d, n, depth) - SubExts(d, p, h) + SubExts(d', p, h)
    && Blks(d', n, depth) == Blks(d, n, depth) - Sub(d, p, h) + Sub(d', p, h)
  }

  lemma ReplaceBelow(d: Disk, d': Disk, cap: nat, E: set<nat>, n: Node, h: nat, lo: int, hi: int, i: nat, all: set<nat>)
    requires h > 0 && Good(d, cap, E, n, h, lo, hi) && i < |n.ents|
    requires GoodSub(d', cap, E, n.ents[i].ptr, h, n.ents[i].key, Bound(n.ents, i + 1, hi))
    requires OnlyBelow(d, d', all, n.ents[i].ptr, h)
    requires Blks(d, n, h) <= all
    ensures Good(d', cap, E, n, h, lo, hi)
    ensures Exchanged(d, d', n, h, n.ents[i].ptr, h)
    ensures Sub(d, n.ents[i].ptr, h) <= Blks(d, n, h)
    ensures SubExts(d, n.ents[i].ptr, h) <= Exts(d, n, h)
  {
    NarrowBelow(d, d', all, Blks(d, n, h), n.ents[i].ptr, h);
    assert Rekeyed(n, n, i, n.ents[i].key) by { assert n.ents == n.ents[i := n.ents[i]]; }
    KidBounds(n.ents, lo, hi, i);
    KidIsGood(d, cap, E, n, h, lo, hi, i);
    ReplaceKidGood(d, d', cap, E, n, n, h, lo, hi, lo, i, n.ents[i].key);
    ReplaceKidSets(d, d', cap, E, n, n, h, lo, hi, i, n.ents[i].key);
  }

  /** From a changed subtree at `p` to the subtree of its parent block `pb`. */
  lemma ReplaceUp(d: Disk, d': Disk, cap: nat, E: set<nat>, pb: nat, h: nat, lo: int, hi: int, p: nat, all: set<nat>)
    requires h > 0
    requires GoodSub(d, cap, E, pb, h + 1, lo, hi)
    requires Good(d', cap, E, d[pb], h, lo, hi)
    requires Sub(d, pb, h + 1) <= all
    requires OnlyBelow(d, d', all, p, h)
    requires Exchanged(d, d', d[pb], h, p, h)
    requires Sub(d, p, h) <= Blks(d, d[pb], h)
    ensures GoodSub(d', cap, E, pb, h + 1, lo, hi)
    ensures OnlyBelow(d, d', all, pb, h + 1)
    ensures d'[pb] == d[pb]
  {
    assert pb in Sub(d, pb, h + 1);
    assert pb in all - Sub(d, p, h);
    assert Sub(d', pb, h + 1) == {pb} + Blks(d', d[pb], h);
    forall b | b in all - Sub(d, pb, h + 1)
      ensures b in d && b in d' && d'[b] == d[b]
    {
      assert b in all - Sub(d, p, h);
    }
  }

  lemma ExchangedUp(d: Disk, d': Disk, root: Node, depth: nat, pb: nat, h: nat, p: nat)
    requires h > 0 && pb in d && pb in d' && d'[pb] == d[pb]
    requires Exchanged(d, d', root, depth, pb, h + 1)
    requires Nested(d, d', root, depth, pb, h, p)
    ensures Exchanged(d, d', root, depth, p, h)
  {
  }

  lemma KidBounds(ents: seq<IndexEntry>, lo: int, hi: int, i: nat)
    requires SortedKeys(ents, lo, hi) && i < |ents|
    ensures lo <= ents[i].key < Bound(ents, i + 1, hi)
  {
  }

  lemma NarrowBelow(d: Disk, d': Disk, all: set<nat>, some: set<nat>, p: nat, h: nat)
    requires h > 0
    requires OnlyBelow(d, d', all, p, h)
    requires some <= all
    ensures OnlyBelow(d, d', some, p, h)
  {
    forall b | b in some - Sub(d, p, h)
      ensures b in d && b in d' && d'[b] == d[b]
    {
      assert b in all - Sub(d, p, h);
    }
  }
}
