/**
 How many nodes from the leaf of a search path upwards have no room for another entry: what an
 insertion that merges with no extent takes from the volume, in blocks.
 */
module ExtentRoom {
  import opened ExtentNodes
  import opened ExtentPaths
  import opened ExtentMap
  import opened ExtentCorrect
  import opened ExtentLeaf

  /** The node at level `k` of the path has no room. */
  predicate FullAt(d: Disk, root: Node, path: seq<Step>, k: nat)
    requires k < |path|
  {
    (k == 0 || path[k].blk in d) && NodeAt(d, root, path, k).Count() == NodeAt(d, root, path, k).max
  }

  /** How many of the first `n` levels, from the last of them upwards, are full without a gap. */
  ghost function FullLevels(d: Disk, root: Node, path: seq<Step>, n: nat): (levels: nat)
    requires n <= |path|
    ensures levels <= n
  {
    if n > 0 && FullAt(d, root, path, n - 1) then 1 + FullLevels(d, root, path, n - 1) else 0
  }

  /** For each of the first levels, how many full ones end with it: none if it has room, else one more than above. */
  ghost predicate Counting(runs: seq<nat>) {
    |runs| > 0 && runs[0] == 0 && forall k {:trigger runs[k]} :: 0 < k < |runs| && runs[k] > 0 ==> runs[k] == runs[k - 1] + 1
  }

  /** The numbers tell which of the first `n` levels are full. */
  ghost predicate RoomIs(d: Disk, root: Node, path: seq<Step>, runs: seq<nat>, n: nat)
    requires n <= |path| && n < |runs|
  {
    forall k :: 0 <= k < n ==> FullAt(d, root, path, k) == (runs[k + 1] > 0)
  }

  ghost function Runs(d: Disk, root: Node, path: seq<Step>, n: nat): (runs: seq<nat>)
    requires n <= |path|
    ensures |runs| == n + 1 && Counting(runs) && RoomIs(d, root, path, runs, n)
    ensures runs[n] == FullLevels(d, root, path, n)
  {
    seq(n + 1, k requires 0 <= k <= n => FullLevels(d, root, path, k))
  }

  lemma RoomStays(d: Disk, root: Node, d': Disk, root': Node, path: seq<Step>, runs: seq<nat>, n: nat)
    requires n <= |path| && n < |runs| && RoomIs(d, root, path, runs, n) && SameRoom(d, root, path, d', root', path, n)
    ensures RoomIs(d', root', path, runs, n)
  {
  }

  /** The first `n` levels of the two trees have the same full nodes. */
  ghost predicate SameRoom(d: Disk, root: Node, path: seq<Step>, d': Disk, root': Node, path': seq<Step>, n: nat)
    requires n <= |path| && n <= |path'|
  {
    forall k :: 0 <= k < n ==> FullAt(d, root, path, k) == FullAt(d', root', path', k)
  }

  lemma {:induction false} SameLevels(d: Disk, root: Node, path: seq<Step>, d': Disk, root': Node, path': seq<Step>, n: nat)
    requires n <= |path| && n <= |path'| && SameRoom(d, root, path, d', root', path', n)
    ensures FullLevels(d, root, path, n) == FullLevels(d', root', path', n)
  {
    if n > 0 {
      SameLevels(d, root, path, d', root', path', n - 1);
    }
  }

  /** The extent found takes the new one in. */
  predicate Merges(exts: seq<Extent>, pos: nat, e: Extent)
    requires |exts| > 0 ==> pos < |exts|
  {
    |exts| > 0 && (CanAppend(exts[pos], e) || CanPrepend(exts[pos], e))
  }

  /** The blocks that inserting `e` at the end of the path takes. */
  ghost function Needs(d: Disk, root: Node, depth: nat, path: seq<Step>, e: Extent): nat
    requires Found(d, root, depth, e.block, path)
  {
    if Merges(NodeAt(d, root, path, depth).exts, path[depth].pos, e) then 0 else FullLevels(d, root, path, depth + 1)
  }

  // ---------------------------------------------------------------- what keeps the room above

  /** Rewriting the node at level `at` and writing a fresh block changes no node further up. */
  lemma RoomAbove(d: Disk, d': Disk, cap: nat, root: Node, depth: nat, block: nat, path: seq<Step>, at: nat,
                  nb: nat, x: Node, y: Node)
    requires GoodTree(d, cap, root, depth) && 0 < at <= depth && Chain(d, root, block, path, at)
    requires nb !in Blks(d, root, depth) && d' == d[nb := x][path[at].blk := y]
    ensures SameRoom(d, root, path, d', root, path, at)
  {
    forall k | 0 <= k < at
      ensures FullAt(d, root, path, k) == FullAt(d', root, path, k)
    {
      if k > 0 {
        BlocksApart(d, cap, {}, root, depth, block, path, k, at, 0, MAX_BLOCKS);
        OnPath(d, cap, root, depth, block, path, k, at);
      }
    }
  }

  lemma OnPath(d: Disk, cap: nat, root: Node, depth: nat, block: nat, path: seq<Step>, k: nat, at: nat)
    requires GoodTree(d, cap, root, depth) && 0 < k <= at <= depth && Chain(d, root, block, path, at)
    ensures path[k].blk in d && path[k].blk in Blks(d, root, depth)
  {
    ChainUp(d, root, block, path, k, at);
    GoodSubAt(d, cap, {}, root, depth, block, path, k, depth + 1 - k, 0, MAX_BLOCKS);
    assert path[k].blk in Sub(d, path[k].blk, depth + 1 - k);
  }

  /** Writing a fresh block changes no node of the path. */
  lemma RoomFresh(d: Disk, d': Disk, cap: nat, root: Node, depth: nat, block: nat, path: seq<Step>, nb: nat, x: Node)
    requires GoodTree(d, cap, root, depth) && Chain(d, root, block, path, depth)
    requires nb !in Blks(d, root, depth) && d' == d[nb := x]
    ensures SameRoom(d, root, path, d', root, path, depth)
  {
    forall k | 0 <= k < depth
      ensures FullAt(d, root, path, k) == FullAt(d', root, path, k)
    {
      if k > 0 {
        OnPath(d, cap, root, depth, block, path, k, depth);
      }
    }
  }

  /** Correcting keys neither adds nor removes entries. */
  lemma RoomCorrected(d0: Disk, root0: Node, d: Disk, root: Node, depth: nat, block: nat, path: seq<Step>, k: nat, border: nat)
    requires Chain(d0, root0, block, path, depth) && Corrected(d0, root0, d, root, depth, block, path, k, border)
    ensures SameRoom(d0, root0, path, d, root, path, depth)
  {
    forall j | 0 <= j < depth
      ensures FullAt(d0, root0, path, j) == FullAt(d, root, path, j)
    {
      assert CorrectedAt(d0, root0, d, root, block, path, j, k, border);
    }
  }

  // ---------------------------------------------------------------- one search, one answer

  /** Two search paths for the same block visit the same nodes. */
  lemma {:induction false} SameNodes(d: Disk, root: Node, block: nat, p: seq<Step>, q: seq<Step>, k: nat)
    requires Chain(d, root, block, p, k) && Chain(d, root, block, q, k)
    ensures NodeAt(d, root, p, k) == NodeAt(d, root, q, k)
    decreases k
  {
    if k > 0 {
      SameNodes(d, root, block, p, q, k - 1);
      ChosenUnique(NodeAt(d, root, p, k - 1).ents, p[k - 1].pos, q[k - 1].pos, block);
    }
  }

  /** They end at the same extent. */
  lemma SameEnd(d: Disk, root: Node, depth: nat, p: seq<Step>, q: seq<Step>, block: nat)
    requires Found(d, root, depth, block, p) && Found(d, root, depth, block, q)
    ensures NodeAt(d, root, p, depth) == NodeAt(d, root, q, depth)
    ensures |NodeAt(d, root, p, depth).exts| > 0 ==> p[depth].pos == q[depth].pos
  {
    SameNodes(d, root, block, p, q, depth);
    var exts := NodeAt(d, root, p, depth).exts;
    if |exts| > 0 {
      ChosenExtUnique(exts, p[depth].pos, q[depth].pos, block);
    }
  }

  /** So what an insertion needs does not depend on the path found for it. */
  lemma SameNeeds(d: Disk, root: Node, depth: nat, p: seq<Step>, q: seq<Step>, e: Extent)
    requires Found(d, root, depth, e.block, p) && Found(d, root, depth, e.block, q)
    ensures Needs(d, root, depth, p, e) == Needs(d, root, depth, q, e)
  {
    forall k | 0 <= k < depth + 1
      ensures FullAt(d, root, p, k) == FullAt(d, root, q, k)
    {
      ChainUp(d, root, e.block, p, k, depth);
      ChainUp(d, root, e.block, q, k, depth);
      SameNodes(d, root, e.block, p, q, k);
    }
    SameEnd(d, root, depth, p, q, e.block);
    SameLevels(d, root, p, d, root, q, depth + 1);
  }
}
