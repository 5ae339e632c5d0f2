/**
 Rewriting single nodes of an extent tree: putting an entry between two others, cutting a node
 in two, moving the root one level down, and storing a rewritten node back on the disk.
 */
module ExtentEdit {
  import opened ExtentNodes
  import opened ExtentPaths

  function Ins<T>(s: seq<T>, k: nat, x: T): (r: seq<T>)
    requires k <= |s|
    ensures |r| == |s| + 1
    ensures forall i :: 0 <= i < |r| ==> r[i] == if i < k then s[i] else if i == k then x else s[i - 1]
  {
    s[..k] + [x] + s[k..]
  }

  // ---------------------------------------------------------------- exchanging parts of a set

  lemma SwapInside<T>(all: set<T>, part: set<T>, gone: set<T>, come: set<T>)
    requires gone <= part <= all
    ensures all - part + (part - gone + come) == all - gone + come
  {
  }

  lemma PutTogether<T>(all: set<T>, part: set<T>)
    requires part <= all
    ensures all - part + part == all
  {
  }

  // ---------------------------------------------------------------- leaves

  lemma InsertSorted(exts: seq<Extent>, k: nat, e: Extent, lo: int, hi: int, lo': int)
    requires SortedExts(exts, lo, hi) && k <= |exts|
    requires e.Len() > 0 && lo' <= lo && lo' <= e.block && e.End() <= hi
    requires k > 0 ==> exts[k - 1].End() <= e.block
    requires k < |exts| ==> e.End() <= exts[k].block
    ensures SortedExts(Ins(exts, k, e), lo', hi)
  {
    var r := Ins(exts, k, e);
    forall i, j | 0 <= i < j < |r|
      ensures r[i].End() <= r[j].block
    {
      InsertPair(exts, k, e, lo, hi, i, j);
    }
  }

  lemma InsertPair(exts: seq<Extent>, k: nat, e: Extent, lo: int, hi: int, i: nat, j: nat)
    requires SortedExts(exts, lo, hi) && k <= |exts| && e.Len() > 0 && i < j <= |exts|
    requires k > 0 ==> exts[k - 1].End() <= e.block
    requires k < |exts| ==> e.End() <= exts[k].block
    ensures Ins(exts, k, e)[i].End() <= Ins(exts, k, e)[j].block
  {
    if j == k {
      assert i < k - 1 ==> exts[i].End() <= exts[k - 1].block;
    } else if i == k {
      assert j > k + 1 ==> exts[k].End() <= exts[j - 1].block;
    }
  }

  lemma CutSorted(l: seq<Extent>, r: seq<Extent>, lo: int, hi: int)
    requires SortedExts(l + r, lo, hi) && |r| > 0
    ensures SortedExts(l, lo, r[0].block) && SortedExts(r, r[0].block, hi)
  {
    var s := l + r;
    forall i, j | 0 <= i < j < |r|
      ensures r[i].End() <= r[j].block
    {
      assert s[|l| + i].End() <= s[|l| + j].block;
    }
    forall i | 0 <= i < |r|
      ensures r[i].Len() > 0 && r[0].block <= r[i].block && r[i].End() <= hi
    {
      assert s[|l| + i] == r[i];
      assert i > 0 ==> s[|l|].End() <= s[|l| + i].block;
    }
    forall i | 0 <= i < |l|
      ensures l[i].Len() > 0 && lo <= l[i].block && l[i].End() <= r[0].block
    {
      assert s[i].End() <= s[|l|].block;
    }
    forall i, j | 0 <= i < j < |l|
      ensures l[i].End() <= l[j].block
    {
      assert s[i].End() <= s[j].block;
    }
  }

  // ---------------------------------------------------------------- index nodes

  /** A subtree waiting to be linked right after entry `i` of `n`: block `q`, first key `idx`. */
  ghost predicate Waiting(d: Disk, cap: nat, n: Node, h: nat, hi: int, i: nat, idx: nat, q: nat) {
    && h > 0 && n.Index? && i < |n.ents|
    && n.ents[i].key < idx < Bound(n.ents, i + 1, hi)
    && GoodSub(d, cap, {}, n.ents[i].ptr, h, n.ents[i].key, idx)
    && GoodSub(d, cap, {}, q, h, idx, Bound(n.ents, i + 1, hi))
    && Sub(d, q, h) !! Blks(d, n, h)
  }

  /** Linking the waiting subtree gives a well-formed node (of sufficient capacity). */
  lemma LinkGood(d: Disk, cap: nat, n: Node, h: nat, lo: int, hi: int, i: nat, idx: nat, q: nat, m: nat)
    requires h > 0 && Good(d, cap, {}, n, h, lo, hi)
    requires Waiting(d, cap, n, h, hi, i, idx, q)
    requires m > |n.ents|
    ensures Good(d, cap, {}, Index(Ins(n.ents, i + 1, IndexEntry(idx, q)), m), h, lo, hi)
  {
    var r := Ins(n.ents, i + 1, IndexEntry(idx, q));
    LinkKeys(n.ents, lo, hi, i, idx, q);
    forall j | 0 <= j < |r|
      ensures GoodKid(d, cap, {}, r, j, h, hi)
    {
      LinkKid(d, cap, n, h, lo, hi, i, idx, q, j);
    }
    LinkApart(d, n, h, i, idx, q);
    var n' := Index(r, m);
    assert Good(d, cap, {}, n', h, lo, hi);
  }

  lemma LinkKid(d: Disk, cap: nat, n: Node, h: nat, lo: int, hi: int, i: nat, idx: nat, q: nat, j: nat)
    requires h > 0 && Good(d, cap, {}, n, h, lo, hi)
    requires Waiting(d, cap, n, h, hi, i, idx, q)
    requires j <= |n.ents|
    ensures GoodKid(d, cap, {}, Ins(n.ents, i + 1, IndexEntry(idx, q)), j, h, hi)
  {
    var r := Ins(n.ents, i + 1, IndexEntry(idx, q));
    if j < i {
      KidIsGood(d, cap, {}, n, h, lo, hi, j);
    } else if j > i + 1 {
      KidIsGood(d, cap, {}, n, h, lo, hi, j - 1);
    }
    assert GoodSub(d, cap, {}, r[j].ptr, h, r[j].key, Bound(r, j + 1, hi));
  }

  lemma LinkApart(d: Disk, n: Node, h: nat, i: nat, idx: nat, q: nat)
    requires h > 0 && n.Index? && i < |n.ents|
    requires Apart(d, n.ents, h) && Sub(d, q, h) !! Blks(d, n, h)
    ensures Apart(d, Ins(n.ents, i + 1, IndexEntry(idx, q)), h)
  {
    var r := Ins(n.ents, i + 1, IndexEntry(idx, q));
    forall x, y | 0 <= x < y < |r|
      ensures Sub(d, r[x].ptr, h) !! Sub(d, r[y].ptr, h)
    {
      if x == i + 1 {
        SubOfKid(d, n, h, y - 1);
      } else if y == i + 1 {
        SubOfKid(d, n, h, x);
      } else {
        var x', y' := if x <= i then x else x - 1, if y <= i then y else y - 1;
        assert r[x] == n.ents[x'] && r[y] == n.ents[y'];
        assert Sub(d, n.ents[x'].ptr, h) !! Sub(d, n.ents[y'].ptr, h);
      }
    }
  }

  lemma SubOfKid(d: Disk, n: Node, h: nat, i: nat)
    requires h > 0 && n.Index? && i < |n.ents|
    ensures Sub(d, n.ents[i].ptr, h) <= Blks(d, n, h)
  {
  }

  lemma LinkKeys(ents: seq<IndexEntry>, lo: int, hi: int, i: nat, idx: nat, q: nat)
    requires SortedKeys(ents, lo, hi) && i < |ents|
    requires ents[i].key < idx < Bound(ents, i + 1, hi)
    ensures SortedKeys(Ins(ents, i + 1, IndexEntry(idx, q)), lo, hi)
  {
    var r := Ins(ents, i + 1, IndexEntry(idx, q));
    forall x, y | 0 <= x < y < |r|
      ensures r[x].key < r[y].key
    {
      assert x < i ==> ents[x].key < ents[i].key;
      assert y > i + 2 ==> ents[i + 1].key < ents[y - 1].key;
    }
    assert i + 1 < |ents| ==> ents[i + 1].key < hi;
  }

  lemma LinkSets(d: Disk, n: Node, h: nat, i: nat, idx: nat, q: nat, m: nat)
    requires h > 0 && n.Index? && i < |n.ents|
    ensures var n' := Index(Ins(n.ents, i + 1, IndexEntry(idx, q)), m);
            && Exts(d, n', h) == Exts(d, n, h) + SubExts(d, q, h)
            && Blks(d, n', h) == Blks(d, n, h) + Sub(d, q, h)
  {
    var l, x, r := n.ents[..i + 1], [IndexEntry(idx, q)], n.ents[i + 1..];
    assert n.ents == l + r;
    assert Ins(n.ents, i + 1, IndexEntry(idx, q)) == (l + x) + r;
    ConcatSets(d, l, r, n.max, h, m, m);
    ConcatSets(d, l + x, r, m, h, m, m);
    ConcatSets(d, l, x, m, h, m, m);
    assert x[0].ptr == q;
  }

  /** What an index node holds is what its entries hold. */
  lemma ConcatSets(d: Disk, l: seq<IndexEntry>, r: seq<IndexEntry>, m: nat, h: nat, ml: nat, mr: nat)
    requires h > 0
    ensures Exts(d, Index(l + r, m), h) == Exts(d, Index(l, ml), h) + Exts(d, Index(r, mr), h)
    ensures Blks(d, Index(l + r, m), h) == Blks(d, Index(l, ml), h) + Blks(d, Index(r, mr), h)
  {
    var s := l + r;
    assert forall j :: 0 <= j < |r| ==> s[|l| + j] == r[j];
    assert forall j :: 0 <= j < |l| ==> s[j] == l[j];
  }

  /** Cutting a well-formed index node in two. */
  lemma CutGood(d: Disk, cap: nat, l: seq<IndexEntry>, r: seq<IndexEntry>, m: nat, h: nat, lo: int, hi: int,
                ml: nat, mr: nat)
    requires h > 0 && Good(d, cap, {}, Index(l + r, m), h, lo, hi)
    requires 0 < |r| && |l| <= ml && |r| <= mr
    ensures Good(d, cap, {}, Index(l, ml), h, lo, r[0].key)
    ensures Good(d, cap, {}, Index(r, mr), h, r[0].key, hi)
  {
    CutKeys(l, r, lo, hi);
    forall j | 0 <= j < |l|
      ensures GoodKid(d, cap, {}, l, j, h, r[0].key)
    {
      LeftKid(d, cap, l, r, m, h, lo, hi, j);
    }
    forall j | 0 <= j < |r|
      ensures GoodKid(d, cap, {}, r, j, h, hi)
    {
      RightKid(d, cap, l, r, m, h, lo, hi, j);
    }
    CutApart(d, l, r, h);
  }

  lemma LeftKid(d: Disk, cap: nat, l: seq<IndexEntry>, r: seq<IndexEntry>, m: nat, h: nat, lo: int, hi: int, j: nat)
    requires h > 0 && Good(d, cap, {}, Index(l + r, m), h, lo, hi) && 0 < |r| && j < |l|
    ensures GoodKid(d, cap, {}, l, j, h, r[0].key)
  {
    KidIsGood(d, cap, {}, Index(l + r, m), h, lo, hi, j);
    assert GoodSub(d, cap, {}, l[j].ptr, h, l[j].key, Bound(l, j + 1, r[0].key));
  }

  lemma RightKid(d: Disk, cap: nat, l: seq<IndexEntry>, r: seq<IndexEntry>, m: nat, h: nat, lo: int, hi: int, j: nat)
    requires h > 0 && Good(d, cap, {}, Index(l + r, m), h, lo, hi) && j < |r|
    ensures GoodKid(d, cap, {}, r, j, h, hi)
  {
    KidIsGood(d, cap, {}, Index(l + r, m), h, lo, hi, |l| + j);
    assert (l + r)[|l| + j] == r[j];
    assert GoodSub(d, cap, {}, r[j].ptr, h, r[j].key, Bound(r, j + 1, hi));
  }

  lemma CutKeys(l: seq<IndexEntry>, r: seq<IndexEntry>, lo: int, hi: int)
    requires SortedKeys(l + r, lo, hi) && |r| > 0
    ensures SortedKeys(l, lo, r[0].key) && SortedKeys(r, r[0].key, hi)
  {
    var s := l + r;
    assert forall j :: 0 <= j < |r| ==> s[|l| + j] == r[j];
    assert forall j :: 0 <= j < |l| ==> s[j] == l[j];
    forall x, y | 0 <= x < y < |r|
      ensures r[x].key < r[y].key
    {
      assert s[|l| + x].key < s[|l| + y].key;
    }
    forall x | 0 <= x < |l|
      ensures l[x].key < r[0].key
    {
      assert s[x].key < s[|l|].key;
    }
  }

  lemma CutApart(d: Disk, l: seq<IndexEntry>, r: seq<IndexEntry>, h: nat)
    requires h > 0 && Apart(d, l + r, h)
    ensures Apart(d, l, h) && Apart(d, r, h)
  {
    var s := l + r;
    forall x, y | 0 <= x < y < |l|
      ensures Sub(d, l[x].ptr, h) !! Sub(d, l[y].ptr, h)
    {
      assert s[x] == l[x] && s[y] == l[y];
    }
    forall x, y | 0 <= x < y < |r|
      ensures Sub(d, r[x].ptr, h) !! Sub(d, r[y].ptr, h)
    {
      assert s[|l| + x] == r[x] && s[|l| + y] == r[y];
    }
  }

  lemma CutSets(d: Disk, l: seq<IndexEntry>, r: seq<IndexEntry>, m: nat, h: nat, ml: nat, mr: nat)
    requires h > 0 && Apart(d, l + r, h)
    ensures Exts(d, Index(l + r, m), h) == Exts(d, Index(l, ml), h) + Exts(d, Index(r, mr), h)
    ensures Blks(d, Index(l + r, m), h) == Blks(d, Index(l, ml), h) + Blks(d, Index(r, mr), h)
    ensures Blks(d, Index(l, ml), h) !! Blks(d, Index(r, mr), h)
  {
    var s := l + r;
    ConcatSets(d, l, r, m, h, ml, mr);
    forall x, y | 0 <= x < |l| && 0 <= y < |r|
      ensures Sub(d, l[x].ptr, h) !! Sub(d, r[y].ptr, h)
    {
      assert s[x] == l[x] && s[|l| + y] == r[y];
    }
  }

  // ---------------------------------------------------------------- storing nodes

  lemma {:induction false} BlksOnDisk(d: Disk, cap: nat, E: set<nat>, n: Node, depth: nat, lo: int, hi: int)
    requires Good(d, cap, E, n, depth, lo, hi)
    ensures forall b :: b in Blks(d, n, depth) ==> b in d
    decreases depth
  {
    if depth > 0 {
      forall b | b in Blks(d, n, depth)
        ensures b in d
      {
        var i :| 0 <= i < |n.ents| && b in Sub(d, n.ents[i].ptr, depth);
        KidIsGood(d, cap, E, n, depth, lo, hi, i);
        BlksOnDisk(d, cap, E, d[n.ents[i].ptr], depth - 1, n.ents[i].key, Bound(n.ents, i + 1, hi));
      }
    }
  }

  /** Writing a block outside a subtree does not change the subtree. */
  lemma WriteElsewhere(d: Disk, cap: nat, E: set<nat>, n: Node, depth: nat, lo: int, hi: int, p: nat, x: Node)
    requires Good(d, cap, E, n, depth, lo, hi) && p !in Blks(d, n, depth)
    ensures Good(d[p := x], cap, E, n, depth, lo, hi)
    ensures Blks(d[p := x], n, depth) == Blks(d, n, depth)
    ensures Exts(d[p := x], n, depth) == Exts(d, n, depth)
  {
    BlksOnDisk(d, cap, E, n, depth, lo, hi);
    Frame(d, d[p := x], cap, E, n, depth, lo, hi);
  }

  lemma WriteElsewhereSub(d: Disk, cap: nat, E: set<nat>, q: nat, h: nat, lo: int, hi: int, p: nat, x: Node)
    requires h > 0 && GoodSub(d, cap, E, q, h, lo, hi) && p !in Sub(d, q, h)
    ensures GoodSub(d[p := x], cap, E, q, h, lo, hi)
    ensures Sub(d[p := x], q, h) == Sub(d, q, h)
    ensures SubExts(d[p := x], q, h) == SubExts(d, q, h)
  {
    WriteElsewhere(d, cap, E, d[q], h - 1, lo, hi, p, x);
  }

  /** The rewritten node uses only blocks of the old one or blocks new to the tree. */
  ghost predicate NoNewSharing(d: Disk, n: Node, n': Node, h: nat, all: set<nat>) {
    forall b :: b in Blks(d, n', h) ==> b in Blks(d, n, h) || b !in all
  }

  /** Storing a rewritten node at level `k` of a path. */
  lemma StoreAt(d: Disk, d': Disk, cap: nat, E: set<nat>, root: Node, depth: nat, block: nat, path: seq<Step>,
                k: nat, h: nat, lo: int, hi: int, n': Node)
    requires Good(d, cap, E, root, depth, lo, hi)
    requires 0 < k && k + h == depth && Chain(d, root, block, path, k)
    requires Good(d, cap, E, n', h, LoAt(d, root, block, path, k, lo), HiAt(d, root, block, path, k, hi))
    requires n'.max == cap && (n'.Count() > 0 || path[k].blk in E)
    requires NoNewSharing(d, NodeAt(d, root, path, k), n', h, Blks(d, root, depth))
    requires d' == d[path[k].blk := n']
    ensures Good(d', cap, E, root, depth, lo, hi)
    ensures Stored(d, d', root, depth, NodeAt(d, root, path, k), n', h)
  {
    StoreSub(d, d', cap, E, root, depth, block, path, k, h, lo, hi, n');
    ReplaceAt(d, d', cap, E, root, depth, block, path, k, h + 1, lo, hi);
    StoredSets(d, d', root, depth, path[k].blk, h, n');
  }

  /** Whatever is stored at the end of a path, the path above stays as it is. */
  lemma StoreKeepsPath(d: Disk, d': Disk, cap: nat, E: set<nat>, root: Node, depth: nat, block: nat,
                       path: seq<Step>, k: nat, h: nat, lo: int, hi: int, n': Node)
    requires Good(d, cap, E, root, depth, lo, hi)
    requires 0 < k && k + h == depth && Chain(d, root, block, path, k)
    requires d' == d[path[k].blk := n']
    ensures Chain(d', root, block, path, k)
    ensures LoAt(d', root, block, path, k, lo) == LoAt(d, root, block, path, k, lo)
    ensures HiAt(d', root, block, path, k, hi) == HiAt(d, root, block, path, k, hi)
  {
    forall j | 0 < j < k
      ensures path[j].blk in d && path[j].blk in d' && d'[path[j].blk] == d[path[j].blk]
    {
      AncestorOutside(d, cap, E, root, depth, block, path, j, k, h + 1, lo, hi);
      ChainUp(d, root, block, path, j, k);
      assert path[k].blk in Sub(d, path[k].blk, h + 1);
    }
    PathFrame(d, d', root, block, path, k, lo, hi);
  }

  ghost predicate Stored(d: Disk, d': Disk, root: Node, depth: nat, n: Node, n': Node, h: nat) {
    && Exts(d', root, depth) == Exts(d, root, depth) - Exts(d, n, h) + Exts(d, n', h)
    && Blks(d', root, depth) == Blks(d, root, depth) - Blks(d, n, h) + Blks(d, n', h)
  }

  lemma StoredSets(d: Disk, d': Disk, root: Node, depth: nat, p: nat, h: nat, n': Node)
    requires p in d && d' == d[p := n']
    requires Exchanged(d, d', root, depth, p, h + 1)
    requires p !in Blks(d, d[p], h) && p in Blks(d, root, depth)
    requires Exts(d', n', h) == Exts(d, n', h) && Blks(d', n', h) == Blks(d, n', h)
    ensures Stored(d, d', root, depth, d[p], n', h)
  {
    assert SubExts(d, p, h + 1) == Exts(d, d[p], h);
    assert SubExts(d', p, h + 1) == Exts(d, n', h);
    assert Sub(d, p, h + 1) == {p} + Blks(d, d[p], h);
    assert Sub(d', p, h + 1) == {p} + Blks(d, n', h);
  }

  lemma StoreSub(d: Disk, d': Disk, cap: nat, E: set<nat>, root: Node, depth: nat, block: nat, path: seq<Step>,
                 k: nat, h: nat, lo: int, hi: int, n': Node)
    requires Good(d, cap, E, root, depth, lo, hi)
    requires 0 < k && k + h == depth && Chain(d, root, block, path, k)
    requires Good(d, cap, E, n', h, LoAt(d, root, block, path, k, lo), HiAt(d, root, block, path, k, hi))
    requires n'.max == cap && (n'.Count() > 0 || path[k].blk in E)
    requires NoNewSharing(d, NodeAt(d, root, path, k), n', h, Blks(d, root, depth))
    requires d' == d[path[k].blk := n']
    ensures GoodSub(d', cap, E, path[k].blk, h + 1,
                    LoAt(d, root, block, path, k, lo), HiAt(d, root, block, path, k, hi))
    ensures OnlyBelow(d, d', Blks(d, root, depth), path[k].blk, h + 1)
    ensures Exts(d', n', h) == Exts(d, n', h) && Blks(d', n', h) == Blks(d, n', h)
    ensures path[k].blk in Blks(d, root, depth) && path[k].blk !in Blks(d, NodeAt(d, root, path, k), h)
  {
    var p := path[k].blk;
    GoodSubAt(d, cap, E, root, depth, block, path, k, h + 1, lo, hi);
    assert p in Sub(d, p, h + 1);
    assert p !in Blks(d, n', h);
    WriteElsewhere(d, cap, E, n', h, LoAt(d, root, block, path, k, lo), HiAt(d, root, block, path, k, hi), p, n');
    BlksOnDisk(d, cap, E, root, depth, lo, hi);
  }

  // ---------------------------------------------------------------- growing the tree

  /** Moving the root into a block and pointing a new root at it adds a level and changes nothing else. */
  lemma GrowGood(d: Disk, cap: nat, root: Node, depth: nat, nb: nat)
    requires GoodTree(d, cap, root, depth) && root.Count() > 0 && cap >= ROOT_CAP
    requires nb !in Blks(d, root, depth)
    ensures var d', root' := d[nb := root.(max := cap)], Index([IndexEntry(root.FirstKey(), nb)], ROOT_CAP);
            && GoodTree(d', cap, root', depth + 1)
            && Exts(d', root', depth + 1) == Exts(d, root, depth)
            && Blks(d', root', depth + 1) == Blks(d, root, depth) + {nb}
            && Good(d', cap, {}, root.(max := cap), depth, root.FirstKey(), MAX_BLOCKS)
            && Blks(d', root.(max := cap), depth) == Blks(d, root, depth)
  {
    var moved := root.(max := cap);
    var d', root' := d[nb := moved], Index([IndexEntry(root.FirstKey(), nb)], ROOT_CAP);
    Remax(d, cap, root, depth, 0, MAX_BLOCKS, cap);
    Raise(d, cap, {}, moved, depth, 0, MAX_BLOCKS, root.FirstKey());
    WriteElsewhere(d, cap, {}, moved, depth, root.FirstKey(), MAX_BLOCKS, nb, moved);
    FirstKeyBelow(d, cap, root, depth, 0, MAX_BLOCKS);
    assert GoodSub(d', cap, {}, root'.ents[0].ptr, depth + 1, root'.ents[0].key, Bound(root'.ents, 1, MAX_BLOCKS));
    assert GoodKid(d', cap, {}, root'.ents, 0, depth + 1, MAX_BLOCKS);
    GrowSets(d', root', depth, nb);
  }

  lemma GrowSets(d: Disk, root: Node, depth: nat, nb: nat)
    requires nb in d && root.Index? && |root.ents| == 1 && root.ents[0].ptr == nb
    ensures Exts(d, root, depth + 1) == Exts(d, d[nb], depth)
    ensures Blks(d, root, depth + 1) == Blks(d, d[nb], depth) + {nb}
  {
    assert SubExts(d, root.ents[0].ptr, depth + 1) == Exts(d, d[nb], depth);
    assert Sub(d, root.ents[0].ptr, depth + 1) == {nb} + Blks(d, d[nb], depth);
  }

  lemma Remax(d: Disk, cap: nat, n: Node, depth: nat, lo: int, hi: int, m: nat)
    requires Good(d, cap, {}, n, depth, lo, hi) && n.Count() <= m
    ensures Good(d, cap, {}, n.(max := m), depth, lo, hi)
    ensures Exts(d, n.(max := m), depth) == Exts(d, n, depth)
    ensures Blks(d, n.(max := m), depth) == Blks(d, n, depth)
  {
    var n' := n.(max := m);
    if depth > 0 {
      assert n'.ents == n.ents;
      assert Apart(d, n'.ents, depth);
    }
  }

  lemma FirstKeyBelow(d: Disk, cap: nat, n: Node, depth: nat, lo: int, hi: int)
    requires Good(d, cap, {}, n, depth, lo, hi) && n.Count() > 0
    ensures lo <= n.FirstKey() < hi
  {
  }
}
