/**
 The on-disk extent tree: entries, nodes, and what a tree of nodes means.

 A tree block holds either extents (a leaf) or index entries.  The disk maps a block
 number to the node stored there; the root node lives in the inode.  The meaning of a
 tree is the set of extents its leaves hold (`Exts`) and the set of blocks its nodes
 occupy (`Blks`).
 */
module ExtentNodes {

  /* Longest initialised extent; a raw length above it marks an unwritten extent. */
  const INIT_MAX_LEN: nat := 0x8000
  const UNWRITTEN_MAX_LEN: nat := 0x7fff
  /* Entries that fit in the 60 bytes of the inode's i_data after the 12-byte header. */
  const ROOT_CAP: nat := 4
  /* EXT_MAX_BLOCKS: every logical block number is below it. */
  const MAX_BLOCKS: nat := 0xffff_ffff

  datatype Extent = Extent(block: nat, rawLen: nat, start: nat) {
    function Len(): nat {
      if rawLen <= INIT_MAX_LEN then rawLen else rawLen - INIT_MAX_LEN
    }

    predicate Unwritten() {
      rawLen > INIT_MAX_LEN
    }

    function End(): nat {
      block + Len()
    }

    predicate Covers(l: nat) {
      block <= l < End()
    }
  }

  datatype IndexEntry = IndexEntry(key: nat, ptr: nat)

  datatype Node =
    | Leaf(exts: seq<Extent>, max: nat)
    | Index(ents: seq<IndexEntry>, max: nat)
  {
    function Count(): nat {
      if Leaf? then |exts| else |ents|
    }

    function FirstKey(): nat
      requires Count() > 0
    {
      if Leaf? then exts[0].block else ents[0].key
    }
  }

  type Disk = map<nat, Node>

  // ---------------------------------------------------------------- meaning

  /** Blocks occupied by the nodes strictly below `n`. */
  ghost function Blks(d: Disk, n: Node, depth: nat): set<nat>
    decreases depth, 0
  {
    if depth == 0 || n.Leaf? then {}
    else set i, b | 0 <= i < |n.ents| && b in Sub(d, n.ents[i].ptr, depth) :: b
  }

  /** Blocks of the subtree at block `p`, `p` included, below a node of height `depth`. */
  ghost function Sub(d: Disk, p: nat, depth: nat): set<nat>
    requires depth > 0
    decreases depth - 1, 1
  {
    {p} + if p in d then Blks(d, d[p], depth - 1) else {}
  }

  /** Extents held by the leaves below (or at) `n`. */
  ghost function Exts(d: Disk, n: Node, depth: nat): set<Extent>
    decreases depth, 0
  {
    if n.Leaf? then (set e | e in n.exts)
    else if depth == 0 then {}
    else set i, e | 0 <= i < |n.ents| && e in SubExts(d, n.ents[i].ptr, depth) :: e
  }

  ghost function SubExts(d: Disk, p: nat, depth: nat): set<Extent>
    requires depth > 0
    decreases depth - 1, 1
  {
    if p in d then Exts(d, d[p], depth - 1) else {}
  }

  // ---------------------------------------------------------------- well-formedness

  ghost predicate SortedExts(exts: seq<Extent>, lo: int, hi: int) {
    && (forall i :: 0 <= i < |exts| ==> exts[i].Len() > 0 && lo <= exts[i].block && exts[i].End() <= hi)
    && (forall i, j :: 0 <= i < j < |exts| ==> exts[i].End() <= exts[j].block)
  }

  ghost predicate SortedKeys(ents: seq<IndexEntry>, lo: int, hi: int) {
    && (forall i :: 0 <= i < |ents| ==> lo <= ents[i].key < hi)
    && (forall i, j :: 0 <= i < j < |ents| ==> ents[i].key < ents[j].key)
  }

  function Bound(ents: seq<IndexEntry>, i: nat, hi: int): int {
    if i < |ents| then ents[i].key else hi
  }

  /** The subtrees below the entries share no block. */
  ghost predicate Apart(d: Disk, ents: seq<IndexEntry>, depth: nat)
    requires depth > 0
  {
    forall i, j {:trigger Sub(d, ents[i].ptr, depth), Sub(d, ents[j].ptr, depth)} ::
      0 <= i < j < |ents| ==> Sub(d, ents[i].ptr, depth) !! Sub(d, ents[j].ptr, depth)
  }

  /**
   `n` is a well-formed node of height `depth`: all leaves at the same depth, entries within
   capacity, keys sorted inside [lo, hi), extents of the i-th child between its key and the
   next key, no block used twice.  Blocks have capacity `cap`; only the blocks in `E` may be
   empty (a truncation in progress leaves one such block).
   */
  ghost predicate Good(d: Disk, cap: nat, E: set<nat>, n: Node, depth: nat, lo: int, hi: int)
    decreases depth, 0
  {
    && n.Count() <= n.max
    && if depth == 0 then
         n.Leaf? && SortedExts(n.exts, lo, hi)
       else
         && n.Index?
         && SortedKeys(n.ents, lo, hi)
         && (forall i {:trigger GoodKid(d, cap, E, n.ents, i, depth, hi)} ::
               0 <= i < |n.ents| ==> GoodKid(d, cap, E, n.ents, i, depth, hi))
         && Apart(d, n.ents, depth)
  }

  /** The i-th child of an index node of height `depth`, between its key and the next one. */
  ghost predicate GoodKid(d: Disk, cap: nat, E: set<nat>, ents: seq<IndexEntry>, i: nat, depth: nat, hi: int)
    requires depth > 0
    requires i < |ents|
    decreases depth - 1, 2
  {
    GoodSub(d, cap, E, ents[i].ptr, depth, ents[i].key, Bound(ents, i + 1, hi))
  }

  ghost predicate GoodSub(d: Disk, cap: nat, E: set<nat>, p: nat, depth: nat, lo: int, hi: int)
    requires depth > 0
    decreases depth - 1, 1
  {
    && p in d
    && d[p].max == cap
    && (d[p].Count() > 0 || p in E)
    && p !in Blks(d, d[p], depth - 1)
    && Good(d, cap, E, d[p], depth - 1, lo, hi)
  }

  /** The tree of an inode: a well-formed root over all logical blocks, never an empty index. */
  ghost predicate GoodTree(d: Disk, cap: nat, root: Node, depth: nat) {
    && Good(d, cap, {}, root, depth, 0, MAX_BLOCKS)
    && root.max == ROOT_CAP
    && (depth > 0 ==> root.Count() > 0)
  }

  // ---------------------------------------------------------------- basic lemmas

  /** What well-formedness of an index node says about its i-th child. */
  lemma KidIsGood(d: Disk, cap: nat, E: set<nat>, n: Node, depth: nat, lo: int, hi: int, i: nat)
    requires depth > 0
    requires Good(d, cap, E, n, depth, lo, hi)
    requires i < n.Count()
    ensures n.Index? && GoodSub(d, cap, E, n.ents[i].ptr, depth, n.ents[i].key, Bound(n.ents, i + 1, hi))
    ensures n.ents[i].ptr in d
    ensures Sub(d, n.ents[i].ptr, depth) <= Blks(d, n, depth)
    ensures SubExts(d, n.ents[i].ptr, depth) <= Exts(d, n, depth)
  {
    assert GoodKid(d, cap, E, n.ents, i, depth, hi);
    assert GoodSub(d, cap, E, n.ents[i].ptr, depth, n.ents[i].key, Bound(n.ents, i + 1, hi));
    assert n.ents[i].ptr in d;
  }

  lemma {:induction false} ExtsInRange(d: Disk, cap: nat, E: set<nat>, n: Node, depth: nat, lo: int, hi: int)
    requires Good(d, cap, E, n, depth, lo, hi)
    ensures forall e :: e in Exts(d, n, depth) ==> e.Len() > 0 && lo <= e.block && e.End() <= hi
    decreases depth
  {
    if depth > 0 {
      forall e | e in Exts(d, n, depth)
        ensures e.Len() > 0 && lo <= e.block && e.End() <= hi
      {
        var i :| 0 <= i < |n.ents| && e in SubExts(d, n.ents[i].ptr, depth);
        KidIsGood(d, cap, E, n, depth, lo, hi, i);
        ExtsInRange(d, cap, E, d[n.ents[i].ptr], depth - 1, n.ents[i].key, Bound(n.ents, i + 1, hi));
      }
    }
  }

  /** The two disks hold the same node in every block of `s`. */
  ghost predicate Agree(d: Disk, d': Disk, s: set<nat>) {
    forall b {:trigger b in s} :: b in s ==> b in d && b in d' && d'[b] == d[b]
  }

  /** A subtree means the same on every disk that agrees with `d` on the subtree's blocks. */
  lemma {:induction false} Frame(d: Disk, d': Disk, cap: nat, E: set<nat>, n: Node, depth: nat, lo: int, hi: int)
    requires Good(d, cap, E, n, depth, lo, hi)
    requires Agree(d, d', Blks(d, n, depth))
    ensures Good(d', cap, E, n, depth, lo, hi)
    ensures Blks(d', n, depth) == Blks(d, n, depth)
    ensures Exts(d', n, depth) == Exts(d, n, depth)
    decreases depth, 0
  {
    if depth > 0 {
      forall i | 0 <= i < |n.ents|
        ensures Sub(d', n.ents[i].ptr, depth) == Sub(d, n.ents[i].ptr, depth)
        ensures SubExts(d', n.ents[i].ptr, depth) == SubExts(d, n.ents[i].ptr, depth)
        ensures GoodKid(d', cap, E, n.ents, i, depth, hi)
      {
        KidIsGood(d, cap, E, n, depth, lo, hi, i);
        FrameSub(d, d', cap, E, n.ents[i].ptr, depth, n.ents[i].key, Bound(n.ents, i + 1, hi));
      }
    }
  }

  lemma {:induction false} FrameSub(d: Disk, d': Disk, cap: nat, E: set<nat>, p: nat, depth: nat, lo: int, hi: int)
    requires depth > 0
    requires GoodSub(d, cap, E, p, depth, lo, hi)
    requires Agree(d, d', Sub(d, p, depth))
    ensures GoodSub(d', cap, E, p, depth, lo, hi)
    ensures Sub(d', p, depth) == Sub(d, p, depth)
    ensures SubExts(d', p, depth) == SubExts(d, p, depth)
    decreases depth - 1, 1
  {
    assert p in Sub(d, p, depth);
    Frame(d, d', cap, E, d[p], depth - 1, lo, hi);
  }
}
