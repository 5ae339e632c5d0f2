/**
 The meaning of an extent tree as a finite map from logical to physical blocks, and why the
 search path for a block decides what that map says about the block.
 */
module ExtentMap {
  import opened ExtentNodes
  import opened ExtentPaths

  /** No two extents of the set cover a common logical block. */
  ghost predicate Disjoint(s: set<Extent>) {
    forall e, f :: e in s && f in s && e != f ==> e.End() <= f.block || f.End() <= e.block
  }

  ghost function Domain(s: set<Extent>): set<nat> {
    set e, l: nat | e in s && e.block <= l < e.End() && e.Covers(l) :: l
  }

  ghost function Phys(s: set<Extent>, l: nat): nat
    requires l in Domain(s)
  {
    var e :| e in s && e.Covers(l);
    e.start + (l - e.block)
  }

  /** The logical-to-physical map the extents stand for. */
  ghost function MapOf(s: set<Extent>): map<nat, nat> {
    map l | l in Domain(s) :: Phys(s, l)
  }

  ghost function ExtentMapOf(e: Extent): map<nat, nat> {
    map l: nat | e.block <= l < e.End() && e.Covers(l) :: e.start + (l - e.block)
  }

  lemma MapOfCovered(s: set<Extent>, e: Extent, l: nat)
    requires Disjoint(s) && e in s && e.Covers(l)
    ensures l in MapOf(s) && MapOf(s)[l] == e.start + (l - e.block)
  {
    assert l in Domain(s);
    var f :| f in s && f.Covers(l) && Phys(s, l) == f.start + (l - f.block);
    assert e != f ==> e.End() <= f.block || f.End() <= e.block;
  }

  lemma MapOfDomain(s: set<Extent>, l: nat) returns (e: Extent)
    requires l in MapOf(s)
    ensures e in s && e.Covers(l)
  {
    e :| e in s && e.Covers(l);
  }

  /** The map of a root leaf with one extent. */
  lemma RootMap(d: Disk, e: Extent)
    ensures MapOf(Exts(d, Leaf([e], ROOT_CAP), 0)) == ExtentMapOf(e)
  {
    assert Exts(d, Leaf([e], ROOT_CAP), 0) == {e};
    OneExtent(e);
  }

  lemma OneExtent(e: Extent)
    ensures MapOf({e}) == ExtentMapOf(e)
  {
    assert Disjoint({e});
    forall l | l in MapOf({e})
      ensures l in ExtentMapOf(e) && MapOf({e})[l] == ExtentMapOf(e)[l]
    {
      var f := MapOfDomain({e}, l);
      MapOfCovered({e}, e, l);
    }
    forall l | l in ExtentMapOf(e)
      ensures l in MapOf({e})
    {
      MapOfCovered({e}, e, l);
    }
  }

  // ---------------------------------------------------------------- a tree is a map

  /** The extents of a well-formed tree do not overlap, so the tree denotes a map. */
  lemma {:induction false} GoodDisjoint(d: Disk, cap: nat, E: set<nat>, n: Node, depth: nat, lo: int, hi: int)
    requires Good(d, cap, E, n, depth, lo, hi)
    ensures Disjoint(Exts(d, n, depth))
    decreases depth
  {
    if depth > 0 {
      forall i | 0 <= i < |n.ents|
        ensures Disjoint(SubExts(d, n.ents[i].ptr, depth))
      {
        KidIsGood(d, cap, E, n, depth, lo, hi, i);
        GoodDisjoint(d, cap, E, d[n.ents[i].ptr], depth - 1, n.ents[i].key, Bound(n.ents, i + 1, hi));
      }
      forall e, f | e in Exts(d, n, depth) && f in Exts(d, n, depth) && e != f
        ensures e.End() <= f.block || f.End() <= e.block
      {
        PairApart(d, cap, E, n, depth, lo, hi, e, f);
      }
    }
  }

  /** Two extents of a node do not overlap if no two of one child do. */
  lemma PairApart(d: Disk, cap: nat, E: set<nat>, n: Node, depth: nat, lo: int, hi: int, e: Extent, f: Extent)
    requires depth > 0 && Good(d, cap, E, n, depth, lo, hi)
    requires forall i :: 0 <= i < |n.ents| ==> Disjoint(SubExts(d, n.ents[i].ptr, depth))
    requires e in Exts(d, n, depth) && f in Exts(d, n, depth) && e != f
    ensures e.End() <= f.block || f.End() <= e.block
  {
    var i :| 0 <= i < |n.ents| && e in SubExts(d, n.ents[i].ptr, depth);
    var j :| 0 <= j < |n.ents| && f in SubExts(d, n.ents[j].ptr, depth);
    if i != j {
      KidRange(d, cap, E, n, depth, lo, hi, i);
      KidRange(d, cap, E, n, depth, lo, hi, j);
      BoundMonotone(n.ents, lo, hi, i, j);
      BoundMonotone(n.ents, lo, hi, j, i);
    }
  }

  // ---------------------------------------------------------------- what a search path tells

  /** Extents of a node outside the child taken for `block` end at or before `block`, or start after the child. */
  lemma OutsideKid(d: Disk, cap: nat, E: set<nat>, n: Node, h: nat, lo: int, hi: int, i: nat, block: nat, e: Extent)
    requires h > 0 && Good(d, cap, E, n, h, lo, hi)
    requires Chosen(n.ents, i, block)
    requires e in Exts(d, n, h) && e !in SubExts(d, n.ents[i].ptr, h)
    ensures e.End() <= block || e.block >= Bound(n.ents, i + 1, hi)
  {
    var j :| 0 <= j < |n.ents| && e in SubExts(d, n.ents[j].ptr, h);
    KidRange(d, cap, E, n, h, lo, hi, j);
    BoundMonotone(n.ents, lo, hi, i, j);
    BoundMonotone(n.ents, lo, hi, j, i);
  }

  lemma {:induction false} Outside(d: Disk, cap: nat, E: set<nat>, root: Node, depth: nat, block: nat,
                                   path: seq<Step>, k: nat, h: nat, lo: int, hi: int, e: Extent)
    requires Good(d, cap, E, root, depth, lo, hi)
    requires Chain(d, root, block, path, k) && k + h == depth
    requires e in Exts(d, root, depth) && e !in Exts(d, NodeAt(d, root, path, k), h)
    ensures e.End() <= block || e.block >= HiAt(d, root, block, path, k, hi)
    decreases k
  {
    if k > 0 {
      if e in Exts(d, NodeAt(d, root, path, k - 1), h + 1) {
        OutsideHere(d, cap, E, root, depth, block, path, k, h, lo, hi, e);
      } else {
        Outside(d, cap, E, root, depth, block, path, k - 1, h + 1, lo, hi, e);
        HiShrinks(d, cap, E, root, depth, block, path, k, h, lo, hi);
      }
    }
  }

  lemma OutsideHere(d: Disk, cap: nat, E: set<nat>, root: Node, depth: nat, block: nat,
                    path: seq<Step>, k: nat, h: nat, lo: int, hi: int, e: Extent)
    requires Good(d, cap, E, root, depth, lo, hi)
    requires k > 0 && Chain(d, root, block, path, k) && k + h == depth
    requires e in Exts(d, NodeAt(d, root, path, k - 1), h + 1) && e !in Exts(d, NodeAt(d, root, path, k), h)
    ensures e.End() <= block || e.block >= HiAt(d, root, block, path, k, hi)
  {
    GoodAt(d, cap, E, root, depth, block, path, k - 1, h + 1, lo, hi);
    OutsideKid(d, cap, E, NodeAt(d, root, path, k - 1), h + 1, LoAt(d, root, block, path, k - 1, lo),
               HiAt(d, root, block, path, k - 1, hi), path[k - 1].pos, block, e);
  }

  lemma HiShrinks(d: Disk, cap: nat, E: set<nat>, root: Node, depth: nat, block: nat,
                  path: seq<Step>, k: nat, h: nat, lo: int, hi: int)
    requires Good(d, cap, E, root, depth, lo, hi)
    requires k > 0 && Chain(d, root, block, path, k) && k + h == depth
    ensures HiAt(d, root, block, path, k, hi) <= HiAt(d, root, block, path, k - 1, hi)
  {
    GoodAt(d, cap, E, root, depth, block, path, k - 1, h + 1, lo, hi);
    BoundBelow(NodeAt(d, root, path, k - 1).ents, LoAt(d, root, block, path, k - 1, lo),
               HiAt(d, root, block, path, k - 1, hi), path[k - 1].pos + 1);
  }

  lemma BoundBelow(ents: seq<IndexEntry>, lo: int, hi: int, i: nat)
    requires SortedKeys(ents, lo, hi)
    ensures Bound(ents, i, hi) <= hi
  {
  }

  /** The block searched for lies below the upper bound of every node on its path. */
  lemma {:induction false} BelowHi(d: Disk, root: Node, block: nat, path: seq<Step>, k: nat, hi: int)
    requires Chain(d, root, block, path, k) && block < hi
    ensures block < HiAt(d, root, block, path, k, hi)
    decreases k
  {
    if k > 0 {
      BelowHi(d, root, block, path, k - 1, hi);
    }
  }

  /** The extent to try for `block`: the last one not starting above it, else the first. */
  predicate ChosenExt(exts: seq<Extent>, pos: nat, block: nat) {
    && pos < |exts|
    && (pos > 0 ==> exts[pos].block <= block)
    && (forall j :: pos < j < |exts| ==> block < exts[j].block)
  }

  lemma ChosenExtUnique(exts: seq<Extent>, i: nat, j: nat, block: nat)
    requires ChosenExt(exts, i, block) && ChosenExt(exts, j, block)
    ensures i == j
  {
  }

  /** A complete search path for `block` down to a leaf. */
  ghost predicate Found(d: Disk, root: Node, depth: nat, block: nat, path: seq<Step>) {
    && |path| == depth + 1
    && Chain(d, root, block, path, depth)
    && var leaf := NodeAt(d, root, path, depth);
       leaf.Leaf? && (|leaf.exts| > 0 ==> ChosenExt(leaf.exts, path[depth].pos, block))
  }

  /** If any extent of the tree covers the block, it is the one at the end of the path. */
  lemma FoundCovers(d: Disk, cap: nat, root: Node, depth: nat, block: nat, path: seq<Step>, e: Extent)
    requires GoodTree(d, cap, root, depth) && block < MAX_BLOCKS
    requires Found(d, root, depth, block, path)
    requires e in Exts(d, root, depth) && e.Covers(block)
    ensures |NodeAt(d, root, path, depth).exts| > 0
    ensures e == NodeAt(d, root, path, depth).exts[path[depth].pos]
  {
    var leaf := NodeAt(d, root, path, depth);
    BelowHi(d, root, block, path, depth, MAX_BLOCKS);
    if e !in Exts(d, leaf, 0) {
      Outside(d, cap, {}, root, depth, block, path, depth, 0, 0, MAX_BLOCKS, e);
    }
    GoodAt(d, cap, {}, root, depth, block, path, depth, 0, 0, MAX_BLOCKS);
    var i :| 0 <= i < |leaf.exts| && leaf.exts[i] == e;
  }

  /** The first block that may be mapped after the entry at the end of the path. */
  ghost function NextBound(d: Disk, root: Node, depth: nat, block: nat, path: seq<Step>): int
    requires Found(d, root, depth, block, path)
  {
    var leaf, pos := NodeAt(d, root, path, depth), path[depth].pos;
    if pos + 1 < |leaf.exts| then leaf.exts[pos + 1].block
    else HiAt(d, root, block, path, depth, MAX_BLOCKS)
  }

  /** Every extent of the tree is the one found, ends by `block`, or starts at the next bound or later. */
  lemma NextBoundSplits(d: Disk, cap: nat, root: Node, depth: nat, block: nat, path: seq<Step>, e: Extent)
    requires GoodTree(d, cap, root, depth) && block < MAX_BLOCKS
    requires Found(d, root, depth, block, path)
    requires e in Exts(d, root, depth)
    ensures e.End() <= block || e.block >= NextBound(d, root, depth, block, path)
            || (|NodeAt(d, root, path, depth).exts| > 0 && e == NodeAt(d, root, path, depth).exts[path[depth].pos])
  {
    var leaf, pos := NodeAt(d, root, path, depth), path[depth].pos;
    var hi := HiAt(d, root, block, path, depth, MAX_BLOCKS);
    GoodAt(d, cap, {}, root, depth, block, path, depth, 0, 0, MAX_BLOCKS);
    if e in Exts(d, leaf, 0) {
      var i :| 0 <= i < |leaf.exts| && leaf.exts[i] == e;
      if i < pos {
        assert leaf.exts[i].End() <= leaf.exts[pos].block;
      } else if i > pos + 1 {
        assert leaf.exts[pos + 1].End() <= leaf.exts[i].block;
      }
    } else {
      Outside(d, cap, {}, root, depth, block, path, depth, 0, 0, MAX_BLOCKS, e);
      if pos + 1 < |leaf.exts| {
        assert leaf.exts[pos + 1].End() <= hi;
      }
    }
  }
}
