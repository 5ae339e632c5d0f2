/** The leaf an extent is inserted into: where it goes, merging, and the two halves of a split. */
module ExtentLeaf {
  import opened ExtentNodes
  import opened ExtentPaths
  import opened ExtentMap
  import opened ExtentEdit
  import opened ExtentSplit
  import opened ExtentCorrect

  // ---------------------------------------------------------------- merging

  /** `f` continues `e`, logically and physically, and the sum is a possible length. */
  predicate CanAppend(e: Extent, f: Extent) {
    && e.start + e.Len() == f.start
    && e.Len() + f.Len() <= (if e.Unwritten() then UNWRITTEN_MAX_LEN else INIT_MAX_LEN)
    && e.block + e.Len() == f.block
  }

  /** `f` comes right before `e`, logically and physically, and the sum is a possible length. */
  predicate CanPrepend(e: Extent, f: Extent) {
    && f.start + f.Len() == e.start
    && e.Len() + f.Len() <= (if e.Unwritten() then UNWRITTEN_MAX_LEN else INIT_MAX_LEN)
    && f.block + f.Len() == e.block
  }

  function MarkUnwritten(rawLen: nat): nat {
    if rawLen < INIT_MAX_LEN then rawLen + INIT_MAX_LEN else rawLen
  }

  function JoinedLen(e: Extent, f: Extent): nat {
    if e.Unwritten() then MarkUnwritten(e.Len() + f.Len()) else e.Len() + f.Len()
  }

  function Append(e: Extent, f: Extent): (r: Extent)
    ensures CanAppend(e, f) && f.Len() > 0 ==>
              r.block == e.block && r.start == e.start && r.Len() == e.Len() + f.Len() && r.Unwritten() == e.Unwritten()
  {
    e.(rawLen := JoinedLen(e, f))
  }

  /** The prepend merge moves the logical start back but keeps the physical start. */
  function Prepend(e: Extent, f: Extent): (r: Extent)
    ensures CanPrepend(e, f) && f.Len() > 0 ==>
              r.block == f.block && r.start == e.start && r.End() == e.End()
  {
    e.(block := f.block, rawLen := JoinedLen(e, f))
  }

  /** Both merges add to the stored length, and keep the physical start. */
  lemma MergedEntry(e: Extent, f: Extent)
    requires f.Len() > 0
    ensures CanAppend(e, f) ==> Append(e, f) == Extent(e.block, e.rawLen + f.Len(), e.start)
    ensures CanPrepend(e, f) ==> Prepend(e, f) == Extent(f.block, e.rawLen + f.Len(), e.start)
  {
  }

  // ---------------------------------------------------------------- the place of the new extent

  /** The new extent fits between its neighbours in the leaf found and below the leaf's upper bound. */
  ghost predicate Fits(d: Disk, root: Node, depth: nat, path: seq<Step>, e: Extent)
    requires Found(d, root, depth, e.block, path)
  {
    && e.Len() > 0
    && e.End() <= NextBound(d, root, depth, e.block, path)
    && var exts := NodeAt(d, root, path, depth).exts;
       |exts| > 0 ==> exts[path[depth].pos].End() <= e.block || e.End() <= exts[path[depth].pos].block
  }

  /** An extent over unmapped blocks that does not run past the leaf's range fits. */
  lemma UnmappedFits(d: Disk, cap: nat, root: Node, depth: nat, path: seq<Step>, e: Extent)
    requires GoodTree(d, cap, root, depth) && e.Len() > 0 && e.End() <= MAX_BLOCKS
    requires Found(d, root, depth, e.block, path)
    requires forall f :: f in Exts(d, root, depth) ==> f.End() <= e.block || e.End() <= f.block
    requires e.End() <= HiAt(d, root, e.block, path, depth, MAX_BLOCKS)
    ensures Fits(d, root, depth, path, e)
  {
    var leaf, pos := NodeAt(d, root, path, depth), path[depth].pos;
    GoodAt(d, cap, {}, root, depth, e.block, path, depth, 0, 0, MAX_BLOCKS);
    if |leaf.exts| > 0 {
      assert leaf.exts[pos] in Exts(d, leaf, 0);
      if pos + 1 < |leaf.exts| {
        assert leaf.exts[pos + 1] in Exts(d, leaf, 0);
      }
    }
  }

  /** Where the new extent goes in the leaf. */
  function Place(exts: seq<Extent>, pos: nat, e: Extent): (k: nat)
    requires |exts| > 0 ==> pos < |exts|
    ensures k <= |exts|
  {
    if |exts| == 0 then 0 else if e.block > exts[pos].block then pos + 1 else pos
  }

  lemma PlaceSorted(exts: seq<Extent>, pos: nat, e: Extent, lo: int, hi: int)
    requires SortedExts(exts, lo, hi) && e.Len() > 0 && e.End() <= hi
    requires |exts| > 0 ==> ChosenExt(exts, pos, e.block)
    requires |exts| > 0 ==> exts[pos].End() <= e.block || e.End() <= exts[pos].block
    requires pos + 1 < |exts| ==> e.End() <= exts[pos + 1].block
    ensures var r := Ins(exts, Place(exts, pos, e), e);
            && SortedExts(r, Min(lo, r[0].block), hi)
            && (lo <= e.block ==> SortedExts(r, lo, hi))
            && (|exts| > 0 ==> r[0].block == e.block || (lo <= r[0].block < e.block))
    ensures |exts| > 0 && (pos > 0 || e.block > exts[0].block) ==> lo <= e.block
  {
    var k := Place(exts, pos, e);
    InsertSorted(exts, k, e, lo, hi, Min(lo, e.block));
    var r := Ins(exts, k, e);
    forall i | 0 <= i < |r|
      ensures r[0].block <= r[i].block
    {
      assert i > 0 ==> r[0].End() <= r[i].block;
    }
  }

  /** Enlarging the extent found keeps the leaf sorted. */
  lemma AppendSorted(exts: seq<Extent>, pos: nat, e: Extent, lo: int, hi: int)
    requires SortedExts(exts, lo, hi) && e.Len() > 0 && e.End() <= hi
    requires pos < |exts| && CanAppend(exts[pos], e)
    requires pos + 1 < |exts| ==> e.End() <= exts[pos + 1].block
    ensures SortedExts(exts[pos := Append(exts[pos], e)], lo, hi)
  {
    var r := exts[pos := Append(exts[pos], e)];
    forall i, j | 0 <= i < j < |r|
      ensures r[i].End() <= r[j].block
    {
      assert exts[i].End() <= exts[j].block;
      if i == pos && j > pos + 1 {
        assert exts[pos + 1].End() <= exts[j].block;
      }
    }
  }

  // ---------------------------------------------------------------- what the insertion adds

  /** `t` is `s` with `e` added, as an extent of its own or merged into the extent it continues. */
  ghost predicate Added(s: set<Extent>, e: Extent, t: set<Extent>) {
    t == s + {e} || exists f :: f in s && CanAppend(f, e) && t == s - {f} + {Append(f, e)}
  }

  /** Nothing in `s` covers a block of `e`. */
  ghost predicate Apart1(s: set<Extent>, e: Extent) {
    forall f :: f in s ==> f.End() <= e.block || e.End() <= f.block
  }

  /** Adding an extent over unmapped blocks extends the map by exactly that extent. */
  lemma AddedMap(s: set<Extent>, e: Extent, t: set<Extent>)
    requires Disjoint(s) && Added(s, e, t) && e.Len() > 0 && Apart1(s, e)
    requires forall f :: f in s ==> f.Len() > 0
    ensures Disjoint(t)
    ensures MapOf(t) == MapOf(s) + ExtentMapOf(e)
  {
    if t == s + {e} {
      AddOne(s, e);
    } else {
      var f :| f in s && CanAppend(f, e) && t == s - {f} + {Append(f, e)};
      AppendApart(s, f, e);
      AddOne(s - {f}, Append(f, e));
      assert s == s - {f} + {f};
      AddOne(s - {f}, f);
      JoinMaps(MapOf(s - {f}), f, e);
    }
  }

  lemma AppendApart(s: set<Extent>, f: Extent, e: Extent)
    requires Disjoint(s) && Apart1(s, e) && f in s && CanAppend(f, e) && e.Len() > 0
    requires forall x :: x in s ==> x.Len() > 0
    ensures Apart1(s - {f}, Append(f, e)) && Apart1(s - {f}, f) && Disjoint(s - {f})
  {
  }

  lemma JoinMaps(m: map<nat, nat>, f: Extent, e: Extent)
    requires CanAppend(f, e) && e.Len() > 0
    ensures m + ExtentMapOf(Append(f, e)) == m + ExtentMapOf(f) + ExtentMapOf(e)
  {
    var g := Append(f, e);
    assert forall l: nat :: g.Covers(l) <==> f.Covers(l) || e.Covers(l);
    assert forall l: nat :: e.Covers(l) ==> !f.Covers(l) && g.start + (l - g.block) == e.start + (l - e.block);
    assert ExtentMapOf(g) == ExtentMapOf(f) + ExtentMapOf(e);
  }

  lemma AddOne(s: set<Extent>, e: Extent)
    requires Disjoint(s) && Apart1(s, e)
    ensures Disjoint(s + {e})
    ensures MapOf(s + {e}) == MapOf(s) + ExtentMapOf(e)
  {
    var t := s + {e};
    AddDisjoint(s, e);
    forall l: nat
      ensures l in MapOf(t) <==> l in MapOf(s) || l in ExtentMapOf(e)
      ensures l in ExtentMapOf(e) ==> MapOf(t)[l] == ExtentMapOf(e)[l]
      ensures l in MapOf(s) && l !in ExtentMapOf(e) ==> MapOf(t)[l] == MapOf(s)[l]
    {
      AddOneAt(s, e, l);
    }
  }

  lemma AddDisjoint(s: set<Extent>, e: Extent)
    requires Disjoint(s) && Apart1(s, e)
    ensures Disjoint(s + {e})
  {
  }

  lemma AddOneAt(s: set<Extent>, e: Extent, l: nat)
    requires Disjoint(s) && Disjoint(s + {e})
    ensures l in MapOf(s + {e}) <==> l in MapOf(s) || l in ExtentMapOf(e)
    ensures l in ExtentMapOf(e) ==> MapOf(s + {e})[l] == ExtentMapOf(e)[l]
    ensures l in MapOf(s) && l !in ExtentMapOf(e) ==> MapOf(s + {e})[l] == MapOf(s)[l]
  {
    if l in MapOf(s + {e}) {
      var x := MapOfDomain(s + {e}, l);
    }
    if l in MapOf(s) {
      KeptIn(s, s + {e}, l);
    }
    if l in ExtentMapOf(e) {
      MapOfCovered(s + {e}, e, l);
    }
  }

  /** More extents leave mapped blocks as they are. */
  lemma KeptIn(s: set<Extent>, t: set<Extent>, l: nat)
    requires Disjoint(s) && Disjoint(t) && s <= t && l in MapOf(s)
    ensures l in MapOf(t) && MapOf(t)[l] == MapOf(s)[l]
  {
    var x := MapOfDomain(s, l);
    MapOfCovered(s, x, l);
    MapOfCovered(t, x, l);
  }

  // ---------------------------------------------------------------- rewriting the leaf

  ghost function Elems(exts: seq<Extent>): set<Extent> {
    set e | e in exts
  }

  lemma InsElems(exts: seq<Extent>, k: nat, e: Extent)
    requires k <= |exts|
    ensures Elems(Ins(exts, k, e)) == Elems(exts) + {e}
  {
    var r := Ins(exts, k, e);
    assert r[k] == e;
    forall i | 0 <= i < |exts|
      ensures exts[i] in r
    {
      assert exts[i] == r[if i < k then i else i + 1];
    }
  }

  lemma UpdateElems(exts: seq<Extent>, pos: nat, g: Extent, lo: int, hi: int)
    requires SortedExts(exts, lo, hi) && pos < |exts|
    ensures Elems(exts[pos := g]) == Elems(exts) - {exts[pos]} + {g}
  {
    var r := exts[pos := g];
    assert r[pos] == g;
    forall i | 0 <= i < |exts| && i != pos
      ensures exts[i] in r && exts[i] != exts[pos]
    {
      assert r[i] == exts[i];
      assert i < pos ==> exts[i].End() <= exts[pos].block;
      assert pos < i ==> exts[pos].End() <= exts[i].block;
    }
  }

  /** Rewriting a leaf block within its range. */
  lemma WriteLeaf(d: Disk, d': Disk, cap: nat, root: Node, depth: nat, block: nat, path: seq<Step>, l: seq<Extent>)
    requires GoodTree(d, cap, root, depth) && depth > 0 && Found(d, root, depth, block, path)
    requires SortedExts(l, LoAt(d, root, block, path, depth, 0), HiAt(d, root, block, path, depth, MAX_BLOCKS))
    requires 0 < |l| <= cap
    requires d' == d[path[depth].blk := Leaf(l, cap)]
    ensures GoodTree(d', cap, root, depth)
    ensures Blks(d', root, depth) == Blks(d, root, depth)
    ensures Exts(d', root, depth) == Exts(d, root, depth) - Elems(NodeAt(d, root, path, depth).exts) + Elems(l)
  {
    StoreAt(d, d', cap, {}, root, depth, block, path, depth, 0, 0, MAX_BLOCKS, Leaf(l, cap));
  }

  /** Rewriting the root leaf of a tree of depth 0. */
  lemma WriteRootLeaf(d: Disk, cap: nat, root: Node, l: seq<Extent>)
    requires GoodTree(d, cap, root, 0) && SortedExts(l, 0, MAX_BLOCKS) && |l| <= ROOT_CAP
    ensures GoodTree(d, cap, Leaf(l, ROOT_CAP), 0)
    ensures Exts(d, Leaf(l, ROOT_CAP), 0) == Elems(l) && Exts(d, root, 0) == Elems(root.exts)
    ensures Blks(d, Leaf(l, ROOT_CAP), 0) == {} && Blks(d, root, 0) == {}
  {
  }

  /** The two halves of a full leaf with the new extent in place, when the first key stays in range. */
  lemma SplitLeafCut(d: Disk, d': Disk, cap: nat, root: Node, depth: nat, block: nat, path: seq<Step>,
                     l: seq<Extent>, r: seq<Extent>, e: Extent, nb: nat)
    requires GoodTree(d, cap, root, depth) && depth > 0 && Found(d, root, depth, block, path)
    requires SortedExts(l + r, LoAt(d, root, block, path, depth, 0), HiAt(d, root, block, path, depth, MAX_BLOCKS))
    requires 0 < |l| <= cap && 0 < |r| <= cap && nb !in Blks(d, root, depth)
    requires Elems(l) + Elems(r) == Elems(NodeAt(d, root, path, depth).exts) + {e}
    requires d' == d[nb := Leaf(r, cap)][path[depth].blk := Leaf(l, cap)]
    ensures InFlight(d', cap, root, depth, block, path, depth - 1, 1, r[0].block, nb, Exts(d, root, depth) + {e})
    ensures Blks(d', root, depth) + Sub(d', nb, 1) == Blks(d, root, depth) + {nb}
  {
    CutLeaf(d, cap, root, depth, block, path, l, r, nb);
    LeafUnion(d, cap, root, depth, block, path, l, r, e);
    SplitLeafDone(d, d', cap, root, depth, block, path, Leaf(l, cap), Leaf(r, cap), r[0].block, nb, Exts(d, root, depth) + {e});
  }

  lemma SplitLeafDone(d: Disk, d': Disk, cap: nat, root: Node, depth: nat, block: nat, path: seq<Step>,
                      l: Node, r: Node, key: nat, nb: nat, target: set<Extent>)
    requires Cut(d, cap, root, depth, block, path, depth, 0, l, r, key, nb)
    requires d' == d[nb := r][path[depth].blk := l]
    requires Exts(d, root, depth) - Exts(d, NodeAt(d, root, path, depth), 0) + Exts(d, l, 0) + Exts(d, r, 0) == target
    ensures InFlight(d', cap, root, depth, block, path, depth - 1, 1, key, nb, target)
    ensures Blks(d', root, depth) + Sub(d', nb, 1) == Blks(d, root, depth) + {nb}
  {
    SplitNode(d, d', cap, root, depth, block, path, depth, 0, l, r, key, nb, target);
    NoneBelow(Blks(d, root, depth), Blks(d, NodeAt(d, root, path, depth), 0), Blks(d, l, 0), Blks(d, r, 0), nb);
  }

  lemma NoneBelow(all: set<nat>, gone: set<nat>, l: set<nat>, r: set<nat>, nb: nat)
    requires gone == {} && l == {} && r == {}
    ensures all - gone + l + r + {nb} == all + {nb}
  {
  }

  lemma LeafUnion(d: Disk, cap: nat, root: Node, depth: nat, block: nat, path: seq<Step>,
                  l: seq<Extent>, r: seq<Extent>, e: Extent)
    requires GoodTree(d, cap, root, depth) && Found(d, root, depth, block, path)
    requires Elems(l) + Elems(r) == Elems(NodeAt(d, root, path, depth).exts) + {e}
    ensures Exts(d, root, depth) - Exts(d, NodeAt(d, root, path, depth), 0) + Exts(d, Leaf(l, cap), 0)
            + Exts(d, Leaf(r, cap), 0) == Exts(d, root, depth) + {e}
  {
    GoodAt(d, cap, {}, root, depth, block, path, depth, 0, 0, MAX_BLOCKS);
    SameUnion(Exts(d, root, depth), Exts(d, NodeAt(d, root, path, depth), 0), Elems(l), Elems(r), {e});
  }

  lemma CutLeaf(d: Disk, cap: nat, root: Node, depth: nat, block: nat, path: seq<Step>,
                l: seq<Extent>, r: seq<Extent>, nb: nat)
    requires GoodTree(d, cap, root, depth) && depth > 0 && Found(d, root, depth, block, path)
    requires SortedExts(l + r, LoAt(d, root, block, path, depth, 0), HiAt(d, root, block, path, depth, MAX_BLOCKS))
    requires 0 < |l| <= cap && 0 < |r| <= cap && nb !in Blks(d, root, depth)
    ensures Cut(d, cap, root, depth, block, path, depth, 0, Leaf(l, cap), Leaf(r, cap), r[0].block, nb)
  {
    CutSorted(l, r, LoAt(d, root, block, path, depth, 0), HiAt(d, root, block, path, depth, MAX_BLOCKS));
    CutBlockBounds(l, r, LoAt(d, root, block, path, depth, 0), HiAt(d, root, block, path, depth, MAX_BLOCKS));
  }

  lemma CutBlockBounds(l: seq<Extent>, r: seq<Extent>, lo: int, hi: int)
    requires SortedExts(l + r, lo, hi) && 0 < |l| && 0 < |r|
    ensures lo < r[0].block < hi && l[0].block < r[0].block
  {
    var s := l + r;
    assert s[0].End() <= s[|l|].block && s[|l|].End() <= hi;
  }

  /** The same when the new extent came first in its leaf and the keys above were corrected. */
  lemma SplitLeafCorrected(d0: Disk, root0: Node, d: Disk, root: Node, cap: nat, depth: nat, block: nat, path: seq<Step>,
                           k: nat, border: nat, l: seq<Extent>, r: seq<Extent>, nb: nat, target: set<Extent>)
    requires GoodTree(d0, cap, root0, depth) && depth > 0 && Chain(d0, root0, block, path, depth)
    requires NodeAt(d0, root0, path, depth).Leaf?
    requires GoodTree(d, cap, root, depth) && k < depth && border <= block
    requires Corrected(d0, root0, d, root, depth, block, path, k, border)
    requires Blks(d, root, depth) == Blks(d0, root0, depth) && nb !in Blks(d0, root0, depth)
    requires Exts(d, root, depth) + Elems(r) == target
    requires nb in d && d[nb] == Leaf(r, cap) && d[path[depth].blk] == Leaf(l, cap)
    requires 0 < |l| <= cap && 0 < |r| <= cap && border < r[0].block && SortedExts(l, border, r[0].block)
    requires SortedExts(r, r[0].block, HiAt(d0, root0, block, path, depth, MAX_BLOCKS))
    ensures InFlight(d, cap, root, depth, block, path, depth - 1, 1, r[0].block, nb, target)
    ensures Blks(d, root, depth) + Sub(d, nb, 1) == Blks(d0, root0, depth) + {nb}
  {
    CorrectedWaiting(d0, root0, d, root, cap, depth, block, path, k, border, l, r, nb);
    assert Sub(d, nb, 1) == {nb};
    assert SubExts(d, nb, 1) == Elems(r);
  }

  lemma CorrectedWaiting(d0: Disk, root0: Node, d: Disk, root: Node, cap: nat, depth: nat, block: nat, path: seq<Step>,
                         k: nat, border: nat, l: seq<Extent>, r: seq<Extent>, nb: nat)
    requires depth > 0 && Chain(d0, root0, block, path, depth)
    requires GoodTree(d, cap, root, depth) && k < depth && border <= block
    requires Corrected(d0, root0, d, root, depth, block, path, k, border)
    requires nb !in Blks(d, root, depth)
    requires nb in d && d[nb] == Leaf(r, cap) && d[path[depth].blk] == Leaf(l, cap)
    requires 0 < |l| <= cap && 0 < |r| <= cap && border < r[0].block && SortedExts(l, border, r[0].block)
    requires SortedExts(r, r[0].block, HiAt(d0, root0, block, path, depth, MAX_BLOCKS))
    ensures Chain(d, root, block, path, depth - 1) && NodeAt(d, root, path, depth - 1).Index?
    ensures Chosen(NodeAt(d, root, path, depth - 1).ents, path[depth - 1].pos, block)
    ensures Waiting(d, cap, NodeAt(d, root, path, depth - 1), 1, HiAt(d, root, block, path, depth - 1, MAX_BLOCKS),
                    path[depth - 1].pos, r[0].block, nb)
  {
    CorrectedPath(d0, root0, d, root, depth, block, path, k, border, depth);
    assert CorrectedAt(d0, root0, d, root, block, path, depth - 1, k, border);
    GoodAt(d, cap, {}, root, depth, block, path, depth - 1, 1, 0, MAX_BLOCKS);
    assert r[0].End() <= HiAt(d0, root0, block, path, depth, MAX_BLOCKS);
  }
}
