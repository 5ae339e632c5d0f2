/**
 The block allocator: one bitmap per block group, a free count per group, a free count for the
 volume and a block count per inode, all moved together.
 */
module BlockAlloc {
  import opened Bits
  import opened Volumes
  import opened Arithmetic

  /* Result codes of the allocator. */
  const OK: int := 0
  const ENOSPC: int := -28

  /**
   Where the blocks of a volume are: `groups` groups of `perGroup` blocks, numbered from `first`,
   the last group with `lastLen` blocks only.
   */
  datatype Geometry = Geometry(first: nat, perGroup: nat, groups: nat, lastLen: nat) {
    predicate Valid() {
      // a 32-byte group descriptor holds a 16-bit free count
      0 < perGroup < 0x1_0000 && 0 < groups && 0 < lastLen <= perGroup
    }

    /** The first block of group `g`. */
    function Start(g: nat): nat {
      if g == 0 then first else Start(g - 1) + perGroup
    }

    /** How many bits of the bitmap of group `g` stand for blocks. */
    function BitmapLen(g: nat): nat {
      if g == groups - 1 then lastLen else perGroup
    }

    /** `b` is block `i` of group `g`. */
    predicate At(b: nat, g: nat, i: nat) {
      g < groups && i < BitmapLen(g) && b == Start(g) + i
    }
  }

  /** The geometry the superblock's block count stands for. */
  function FromSuper(first: nat, perGroup: nat, count: nat): (geo: Geometry)
    requires 0 < perGroup < 0x1_0000 && count > 0
    ensures geo.Valid() && geo.first == first && geo.perGroup == perGroup
    ensures (geo.groups - 1) * perGroup + geo.lastLen == count
  {
    var groups := (count + perGroup - 1) / perGroup;
    var rest := count % perGroup;
    CeilDiv(count, perGroup);
    Geometry(first, perGroup, groups, if rest == 0 then perGroup else rest)
  }

  lemma CeilDiv(x: nat, m: nat)
    requires m > 0 && x > 0
    ensures var q := (x + m - 1) / m; q > 0 && (q - 1) * m + (if x % m == 0 then m else x % m) == x
  {
    var k, r := x / m, x % m;
    assert x == k * m + r;
    if r == 0 {
      DivMod(m, k, m - 1);
      Multiple(m, k);
    } else {
      DivMod(m, k + 1, r - 1);
      NextMultiple(m, k);
    }
  }

  lemma {:induction false} StartIs(geo: Geometry, g: nat)
    ensures geo.Start(g) == geo.first + g * geo.perGroup
  {
    if g > 0 {
      StartIs(geo, g - 1);
    }
  }

  /**
   The last block that the bitmaps stand for is on the volume exactly when the groups begin at block 0:
   the number of groups and the length of the last one do not take the first data block off.
   */
  lemma LastBlock(first: nat, perGroup: nat, count: nat)
    requires 0 < perGroup < 0x1_0000 && count > 0
    ensures var geo := FromSuper(first, perGroup, count);
            geo.Start(geo.groups - 1) + geo.lastLen - 1 < count <==> first == 0
  {
    var geo := FromSuper(first, perGroup, count);
    StartIs(geo, geo.groups - 1);
  }

  /** The bitmaps stand for as many blocks as the volume has, from the first data block on, and for no others. */
  lemma Covered(first: nat, perGroup: nat, count: nat, b: nat)
    requires 0 < perGroup < 0x1_0000 && count > 0
    ensures var geo := FromSuper(first, perGroup, count);
            (exists g: nat, i: nat :: geo.At(b, g, i)) <==> first <= b < first + count
  {
    var geo := FromSuper(first, perGroup, count);
    StartIs(geo, geo.groups - 1);
    if g: nat, i: nat :| geo.At(b, g, i) {
      StartIs(geo, g);
      if g < geo.groups - 1 {
        StartsApart(geo, g, geo.groups - 1);
      }
    }
    if first <= b < first + count {
      CoveredAt(geo, b);
    }
  }

  lemma CoveredAt(geo: Geometry, b: nat)
    requires geo.Valid() && geo.first <= b < geo.first + (geo.groups - 1) * geo.perGroup + geo.lastLen
    ensures exists g: nat, i: nat :: geo.At(b, g, i)
  {
    var g, i := Placed(b - geo.first, geo.perGroup, geo.groups, geo.lastLen);
    StartIs(geo, g);
    assert geo.At(b, g, i);
  }

  /** The group and the index of the m-th block. */
  lemma Placed(m: nat, size: nat, n: nat, last: nat) returns (g: nat, i: nat)
    requires n > 0 && 0 < last <= size && m < (n - 1) * size + last
    ensures g < n && m == g * size + i && i < if g == n - 1 then last else size
  {
    NextMultiple(size, n - 1);
    Quotient(m, size, n);
    g, i := m / size, m % size;
  }

  /** Dividing by the group size finds the group and the index of a block. */
  lemma Located(geo: Geometry, b: nat, g: nat, i: nat)
    requires geo.Valid() && geo.At(b, g, i)
    ensures b >= geo.first && (b - geo.first) / geo.perGroup == g && b - geo.first - g * geo.perGroup == i
  {
    StartIs(geo, g);
    DivMod(geo.perGroup, g, i);
  }

  lemma {:induction false} StartsApart(geo: Geometry, g: nat, h: nat)
    requires g < h
    ensures geo.Start(g) + geo.perGroup <= geo.Start(h)
    decreases h
  {
    if g < h - 1 {
      StartsApart(geo, g, h - 1);
    }
  }

  /** A block number stands for at most one (group, index) pair. */
  lemma OnePlace(geo: Geometry, b: nat, g: nat, i: nat, h: nat, j: nat)
    requires geo.Valid() && geo.At(b, g, i) && geo.At(b, h, j)
    ensures g == h && i == j
  {
    if g < h {
      StartsApart(geo, g, h);
    } else if h < g {
      StartsApart(geo, h, g);
    }
  }

  predicate Shaped(geo: Geometry, bitmaps: seq<seq<bool>>) {
    && geo.Valid()
    && |bitmaps| == geo.groups
    && forall g :: 0 <= g < |bitmaps| ==> |bitmaps[g]| >= geo.perGroup
  }

  ghost predicate InUse(geo: Geometry, bitmaps: seq<seq<bool>>, b: nat)
    requires Shaped(geo, bitmaps)
  {
    exists g: nat, i: nat :: geo.At(b, g, i) && bitmaps[g][i]
  }

  /** `used` is the set of blocks whose bit is set. */
  ghost predicate Marked(geo: Geometry, bitmaps: seq<seq<bool>>, used: set<nat>)
    requires Shaped(geo, bitmaps)
  {
    forall b {:trigger InUse(geo, bitmaps, b)} :: b in used <==> InUse(geo, bitmaps, b)
  }

  predicate Within(b: nat, block: nat, len: nat) {
    block <= b < block + len
  }

  /** The blocks [block, block + len). */
  ghost function Run(block: nat, len: nat): (r: set<nat>)
    ensures forall b :: b in r <==> block <= b < block + len
    ensures len == 1 ==> r == {block}
  {
    set b: nat | block <= b < block + len && Within(b, block, len)
  }

  /** Filling a run of bits of one group changes exactly the blocks of that run. */
  lemma MarkedFilled(geo: Geometry, bitmaps: seq<seq<bool>>, used: set<nat>, g: nat, i: nat, len: nat, v: bool)
    requires Shaped(geo, bitmaps) && Marked(geo, bitmaps, used)
    requires g < |bitmaps| && i + len <= geo.BitmapLen(g)
    ensures Shaped(geo, bitmaps[g := Filled(bitmaps[g], i, len, v)])
    ensures Marked(geo, bitmaps[g := Filled(bitmaps[g], i, len, v)],
                   if v then used + Run(geo.Start(g) + i, len) else used - Run(geo.Start(g) + i, len))
  {
    var bitmaps' := bitmaps[g := Filled(bitmaps[g], i, len, v)];
    var start := geo.Start(g) + i;
    forall b: nat
      ensures InUse(geo, bitmaps', b) <==> if b in Run(start, len) then v else b in used
    {
      if b in Run(start, len) {
        FilledInside(geo, bitmaps, g, i, len, v, b);
      } else {
        FilledOutside(geo, bitmaps, g, i, len, v, b);
      }
    }
  }

  lemma FilledInside(geo: Geometry, bitmaps: seq<seq<bool>>, g: nat, i: nat, len: nat, v: bool, b: nat)
    requires Shaped(geo, bitmaps)
    requires g < |bitmaps| && i + len <= geo.BitmapLen(g)
    requires geo.Start(g) + i <= b < geo.Start(g) + i + len
    ensures Shaped(geo, bitmaps[g := Filled(bitmaps[g], i, len, v)])
    ensures InUse(geo, bitmaps[g := Filled(bitmaps[g], i, len, v)], b) == v
  {
    var bitmaps' := bitmaps[g := Filled(bitmaps[g], i, len, v)];
    assert geo.At(b, g, b - geo.Start(g));
    if InUse(geo, bitmaps', b) {
      var h: nat, j: nat :| geo.At(b, h, j) && bitmaps'[h][j];
      OnePlace(geo, b, g, b - geo.Start(g), h, j);
    }
  }

  lemma FilledOutside(geo: Geometry, bitmaps: seq<seq<bool>>, g: nat, i: nat, len: nat, v: bool, b: nat)
    requires Shaped(geo, bitmaps)
    requires g < |bitmaps| && i + len <= geo.BitmapLen(g)
    requires !(geo.Start(g) + i <= b < geo.Start(g) + i + len)
    ensures Shaped(geo, bitmaps[g := Filled(bitmaps[g], i, len, v)])
    ensures InUse(geo, bitmaps[g := Filled(bitmaps[g], i, len, v)], b) == InUse(geo, bitmaps, b)
  {
    var bitmaps' := bitmaps[g := Filled(bitmaps[g], i, len, v)];
    forall h: nat, j: nat | geo.At(b, h, j)
      ensures bitmaps'[h][j] == bitmaps[h][j]
    {
    }
  }

  /** The blocks that open a group; they hold the group's own metadata. */
  ghost predicate Head(geo: Geometry, b: nat) {
    exists g: nat :: g < geo.groups && b == geo.Start(g)
  }

  /** Every block of the run is in use and none opens a group. */
  ghost predicate Freeable(geo: Geometry, used: set<nat>, block: nat, count: nat) {
    forall b {:trigger b in Run(block, count)} :: b in Run(block, count) ==> b in used && !Head(geo, b)
  }

  /** A run of used blocks none of which opens a group lies inside one group. */
  lemma {:induction false} RunInGroup(geo: Geometry, bitmaps: seq<seq<bool>>, used: set<nat>, b: nat, len: nat, g: nat, i: nat)
    requires Shaped(geo, bitmaps) && Marked(geo, bitmaps, used) && len > 0
    requires geo.At(b, g, i)
    requires Freeable(geo, used, b, len)
    ensures geo.At(b + len - 1, g, i + len - 1)
    ensures forall j :: i <= j < i + len ==> j < |bitmaps[g]| && bitmaps[g][j]
    decreases len
  {
    if len > 1 {
      FreeablePrefix(geo, bitmaps, used, b, len);
      RunInGroup(geo, bitmaps, used, b, len - 1, g, i);
    }
    var h, j := FreeableLast(geo, bitmaps, used, b, len);
    NextPlace(geo, b + len - 1, h, j, g, i + len - 1);
  }

  lemma FreeablePrefix(geo: Geometry, bitmaps: seq<seq<bool>>, used: set<nat>, b: nat, len: nat)
    requires Shaped(geo, bitmaps) && Marked(geo, bitmaps, used) && len > 0 && Freeable(geo, used, b, len)
    ensures Freeable(geo, used, b, len - 1)
  {
    assert Run(b, len - 1) <= Run(b, len);
  }

  lemma FreeableLast(geo: Geometry, bitmaps: seq<seq<bool>>, used: set<nat>, b: nat, len: nat) returns (h: nat, j: nat)
    requires Shaped(geo, bitmaps) && Marked(geo, bitmaps, used) && len > 0 && Freeable(geo, used, b, len)
    ensures geo.At(b + len - 1, h, j) && bitmaps[h][j] && !Head(geo, b + len - 1)
  {
    assert b + len - 1 in Run(b, len);
    assert InUse(geo, bitmaps, b + len - 1);
    h, j :| geo.At(b + len - 1, h, j) && bitmaps[h][j];
  }

  /** The block after the one at (g, k - 1) is at (g, k) unless it opens a group. */
  lemma NextPlace(geo: Geometry, x: nat, h: nat, j: nat, g: nat, k: nat)
    requires geo.Valid() && geo.At(x, h, j) && !Head(geo, x)
    requires g < geo.groups && x == geo.Start(g) + k && (k == 0 || k <= geo.BitmapLen(g))
    ensures h == g && j == k
  {
    if h < g {
      StartsApart(geo, h, g);
    } else if g < h {
      StartsApart(geo, g, h);
    }
  }

  // ---------------------------------------------------------------- the allocator object

  /** Each group's free count is the number of clear bits of its bitmap, and the total is their sum. */
  predicate Counted(geo: Geometry, bitmaps: seq<seq<bool>>, groupFree: seq<nat>, totalFree: nat)
    requires Shaped(geo, bitmaps)
  {
    && |groupFree| == |bitmaps|
    && (forall g :: 0 <= g < |bitmaps| ==> groupFree[g] == Zeros(bitmaps[g], geo.BitmapLen(g)))
    && totalFree == Sum(groupFree, |groupFree|)
  }

  /** Bit 0 of every group belongs to the group's own metadata. */
  predicate Reserved(bitmaps: seq<seq<bool>>) {
    forall g :: 0 <= g < |bitmaps| ==> |bitmaps[g]| > 0 && bitmaps[g][0]
  }

  lemma CountsMove(geo: Geometry, bitmaps: seq<seq<bool>>, groupFree: seq<nat>, totalFree: nat,
                   g: nat, i: nat, len: nat, v: bool)
    requires Shaped(geo, bitmaps) && Counted(geo, bitmaps, groupFree, totalFree)
    requires g < |bitmaps| && i + len <= geo.BitmapLen(g)
    requires forall j :: i <= j < i + len ==> bitmaps[g][j] != v
    ensures var free' := if v then groupFree[g] - len else groupFree[g] + len;
            && 0 <= free' < 0x1_0000
            && free' == Zeros(Filled(bitmaps[g], i, len, v), geo.BitmapLen(g))
            && Sum(groupFree[g := free'], |groupFree|) == if v then totalFree - len else totalFree + len
  {
    ZerosFilled(bitmaps[g], geo.BitmapLen(g), i, len, v);
    SumUpdate(groupFree, |groupFree|, g, if v then groupFree[g] - len else groupFree[g] + len);
  }

  function NextGroup(g: nat, n: nat): (r: nat)
    requires g < n
    ensures r == if g + 1 == n then 0 else g + 1
  {
    (g + 1) % n
  }

  /** A clear bit in range stands for an unused block, and is not the reserved bit. */
  lemma ClearBit(geo: Geometry, bitmaps: seq<seq<bool>>, used: set<nat>, g: nat, i: nat)
    requires Shaped(geo, bitmaps) && Marked(geo, bitmaps, used) && Reserved(bitmaps)
    requires g < |bitmaps| && i < geo.BitmapLen(g) && !bitmaps[g][i]
    ensures i > 0 && geo.Start(g) + i !in used && !Head(geo, geo.Start(g) + i)
  {
    var b := geo.Start(g) + i;
    assert geo.At(b, g, i);
    if InUse(geo, bitmaps, b) {
      var h: nat, j: nat :| geo.At(b, h, j) && bitmaps[h][j];
      OnePlace(geo, b, g, i, h, j);
    }
    if Head(geo, b) {
      var h: nat :| h < geo.groups && b == geo.Start(h);
      OnePlace(geo, b, g, i, h, 0);
    }
  }

  lemma CountsFit(geo: Geometry, bitmaps: seq<seq<bool>>, groupFree: seq<nat>, totalFree: nat,
                  g: nat, i: nat, len: nat, v: bool)
    requires Shaped(geo, bitmaps) && Counted(geo, bitmaps, groupFree, totalFree)
    requires g < |bitmaps| && i + len <= geo.BitmapLen(g)
    requires forall j :: i <= j < i + len ==> bitmaps[g][j] != v
    ensures v ==> len <= groupFree[g] && len <= totalFree
    ensures groupFree[g] < 0x1_0000 && (!v ==> groupFree[g] + len < 0x1_0000)
  {
    CountsMove(geo, bitmaps, groupFree, totalFree, g, i, len, v);
  }

  /** The bitmaps, the counts and the set of used blocks agree. */
  ghost predicate Consistent(geo: Geometry, bitmaps: seq<seq<bool>>, groupFree: seq<nat>, totalFree: nat, used: set<nat>) {
    && Shaped(geo, bitmaps)
    && Counted(geo, bitmaps, groupFree, totalFree)
    && Reserved(bitmaps)
    && Marked(geo, bitmaps, used)
  }

  lemma ConsistentAfter(geo: Geometry, bitmaps: seq<seq<bool>>, groupFree: seq<nat>, totalFree: nat, used: set<nat>,
                        g: nat, i: nat, len: nat, v: bool, free: nat, totalFree': nat, used': set<nat>)
    requires Consistent(geo, bitmaps, groupFree, totalFree, used)
    requires g < |bitmaps| && 0 < i && i + len <= geo.BitmapLen(g)
    requires forall j :: i <= j < i + len ==> bitmaps[g][j] != v
    requires free == (if v then groupFree[g] - len else groupFree[g] + len)
    requires totalFree' == (if v then totalFree - len else totalFree + len)
    requires used' == if v then used + Run(geo.Start(g) + i, len) else used - Run(geo.Start(g) + i, len)
    ensures Consistent(geo, bitmaps[g := Filled(bitmaps[g], i, len, v)], groupFree[g := free], totalFree', used')
  {
    CountsMove(geo, bitmaps, groupFree, totalFree, g, i, len, v);
    MarkedFilled(geo, bitmaps, used, g, i, len, v);
  }

  /** The group to start from: the one the goal lies in, or the first one. */
  predicate GoalIn(geo: Geometry, goal: nat, g: nat) {
    if goal == 0 then g == 0 else geo.Start(g) <= goal < geo.Start(g) + geo.perGroup
  }

  /** A goal outside the volume is none. */
  function GoalOf(geo: Geometry, goal: int): (r: nat)
    ensures r != 0 ==> geo.first <= r < geo.Start(geo.groups)
  {
    if geo.first <= goal < geo.Start(geo.groups) then goal else 0
  }

  /** `g` is the first group with free blocks, counting cyclically from group `from`. */
  predicate FirstInCycle(groupFree: seq<nat>, from: nat, g: nat) {
    && g < |groupFree| && groupFree[g] > 0
    && if from <= g then
         forall h :: from <= h < g ==> groupFree[h] == 0
       else
         && (forall h :: from <= h < |groupFree| ==> groupFree[h] == 0)
         && (forall h :: 0 <= h < g ==> groupFree[h] == 0)
  }

  /** `block` is the first free block of the first group with free blocks, from the goal's group on. */
  ghost predicate FirstFit(geo: Geometry, bitmaps: seq<seq<bool>>, groupFree: seq<nat>, goal: nat, block: nat)
    requires Shaped(geo, bitmaps)
  {
    exists from: nat, g: nat, i: nat {:trigger GoalIn(geo, goal, from), geo.At(block, g, i)} ::
      && GoalIn(geo, goal, from) && FirstInCycle(groupFree, from, g)
      && geo.At(block, g, i) && !bitmaps[g][i] && forall j :: 0 <= j < i ==> bitmaps[g][j]
  }

  /** No other block fits first. */
  lemma FirstFitUnique(geo: Geometry, bitmaps: seq<seq<bool>>, groupFree: seq<nat>, goal: nat, b: nat, c: nat)
    requires Shaped(geo, bitmaps) && |groupFree| == |bitmaps|
    requires FirstFit(geo, bitmaps, groupFree, goal, b) && FirstFit(geo, bitmaps, groupFree, goal, c)
    ensures b == c
  {
    var from: nat, g: nat, i: nat :|
      && GoalIn(geo, goal, from) && FirstInCycle(groupFree, from, g)
      && geo.At(b, g, i) && !bitmaps[g][i] && forall j :: 0 <= j < i ==> bitmaps[g][j];
    var from': nat, g': nat, i': nat :|
      && GoalIn(geo, goal, from') && FirstInCycle(groupFree, from', g')
      && geo.At(c, g', i') && !bitmaps[g'][i'] && forall j :: 0 <= j < i' ==> bitmaps[g'][j];
    GoalOnce(geo, goal, from, from');
    CycleOnce(groupFree, from, g, g');
    assert i == i';
  }

  lemma GoalOnce(geo: Geometry, goal: nat, f: nat, g: nat)
    requires geo.Valid() && GoalIn(geo, goal, f) && GoalIn(geo, goal, g)
    ensures f == g
  {
    if f < g {
      StartsApart(geo, f, g);
    } else if g < f {
      StartsApart(geo, g, f);
    }
  }

  lemma CycleOnce(groupFree: seq<nat>, from: nat, g: nat, h: nat)
    requires FirstInCycle(groupFree, from, g) && FirstInCycle(groupFree, from, h)
    ensures g == h
  {
  }

  /**
   Bit `i` of group `g`, which fits first, is free, and no free bit `j` of a group `h` comes before it when the
   groups are taken cyclically from the one `f` that the goal lies in.
   */
  lemma FirstFitNearest(geo: Geometry, bitmaps: seq<seq<bool>>, groupFree: seq<nat>, totalFree: nat, goal: nat,
                        f: nat, g: nat, i: nat, h: nat, j: nat)
    requires Shaped(geo, bitmaps) && Counted(geo, bitmaps, groupFree, totalFree)
    requires if goal == 0 then f == 0 else geo.Start(f) <= goal < geo.Start(f) + geo.perGroup
    requires g < |bitmaps| && i < geo.BitmapLen(g) && FirstFit(geo, bitmaps, groupFree, goal, geo.Start(g) + i)
    requires h < |bitmaps| && j < geo.BitmapLen(h) && !bitmaps[h][j]
    ensures !bitmaps[g][i]
    ensures if (f <= g) == (f <= h) then g < h || (g == h && i <= j) else f <= g
  {
    var from: nat, g': nat, i': nat :|
      && GoalIn(geo, goal, from) && FirstInCycle(groupFree, from, g')
      && geo.At(geo.Start(g) + i, g', i') && !bitmaps[g'][i'] && forall k :: 0 <= k < i' ==> bitmaps[g'][k];
    assert geo.At(geo.Start(g) + i, g, i);
    OnePlace(geo, geo.Start(g) + i, g, i, g', i');
    GoalOnce(geo, goal, from, f);
    ZerosWitness(bitmaps[h], geo.BitmapLen(h));
    assert groupFree[h] > 0;
  }

  method GoalGroup(geo: Geometry, goal: nat) returns (group: nat)
    requires geo.Valid() && (goal != 0 ==> geo.first <= goal < geo.Start(geo.groups))
    ensures group < geo.groups && GoalIn(geo, goal, group)
  {
    group := 0;
    if goal != 0 {
      group := (goal - geo.first) / geo.perGroup;
      StartIs(geo, geo.groups);
      Quotient(goal - geo.first, geo.perGroup, geo.groups);
      StartIs(geo, group);
    }
  }

  method BlockNumber(geo: Geometry, group: nat, index: nat) returns (block: nat)
    ensures block == geo.Start(group) + index && block >= geo.first + index
  {
    block := geo.first + group * geo.perGroup + index;
    StartIs(geo, group);
    StartsAfterFirst(geo, group);
  }

  method BlockPlace(geo: Geometry, block: nat, ghost g: nat, ghost i: nat) returns (group: nat, index: nat)
    requires geo.Valid() && geo.At(block, g, i)
    ensures group == g && index == i
  {
    Located(geo, block, g, i);
    group := (block - geo.first) / geo.perGroup;
    index := block - geo.first - group * geo.perGroup;
  }

  class BlockAllocator {
    const geo: Geometry
    /* group descriptors of 64 bytes hold the upper half of the free count too */
    const wide: bool
    var bitmaps: seq<seq<bool>>
    var groupFree: seq<nat>
    var totalFree: nat
    /* the blocks whose bit is set */
    ghost var used: set<nat>

    ghost predicate Valid()
      reads this
    {
      Consistent(geo, bitmaps, groupFree, totalFree, used)
    }

    constructor (geo: Geometry, wide: bool, bitmaps: seq<seq<bool>>, groupFree: seq<nat>, totalFree: nat,
                 ghost used: set<nat>)
      requires Consistent(geo, bitmaps, groupFree, totalFree, used)
      ensures Valid()
      ensures this.geo == geo && this.bitmaps == bitmaps && this.totalFree == totalFree && this.used == used
    {
      this.geo, this.wide, this.bitmaps, this.groupFree, this.totalFree := geo, wide, bitmaps, groupFree, totalFree;
      this.used := used;
    }

    /** What a group descriptor keeps of a free count. */
    function StoredCount(c: nat): nat {
      if wide then c % 0x1_0000_0000 else c % 0x1_0000
    }

    /** Looks for the first free block, scanning the groups cyclically from the one the goal lies in. */
    method FindBlock(goal: nat) returns (err: int, group: nat, index: nat)
      requires Valid()
      requires goal != 0 ==> geo.first <= goal < geo.Start(geo.groups)
      ensures err == OK <==> totalFree > 0
      ensures err != OK ==> err == ENOSPC
      ensures err == OK ==> group < |bitmaps| && index < geo.BitmapLen(group) && !bitmaps[group][index]
      ensures err == OK ==> index == NextZero(bitmaps[group], geo.BitmapLen(group), 0)
      ensures err == OK ==> FirstFit(geo, bitmaps, groupFree, goal, geo.Start(group) + index)
    {
      var groupGoal := GoalGroup(geo, goal);
      index := 0;
      err, group := FindGroup(groupGoal);
      if err != OK {
        return;
      }
      var bitmapLen := geo.BitmapLen(group);
      ZerosWitness(bitmaps[group], bitmapLen);
      index := NextZero(bitmaps[group], bitmapLen, 0);
      assert GoalIn(geo, goal, groupGoal) && geo.At(geo.Start(group) + index, group, index);
    }

    /**
     Takes one free block (none when nothing is wanted), the first one from the group the goal lies
     in.  It fails exactly when every group is full.
     */
    method NewMetaBlocks(inode: Inode, goal: nat, wanted: nat) returns (err: int, block: nat, len: nat)
      requires Valid()
      requires goal != 0 ==> geo.first <= goal < geo.Start(geo.groups)
      modifies this`bitmaps, this`groupFree, this`totalFree, this`used, inode`blocks
      ensures Valid()
      ensures err == OK <==> old(totalFree) > 0
      ensures err != OK ==> err == ENOSPC && block == 0 && len == 0
      ensures err == OK ==> block !in old(used) && len == (if wanted == 0 then 0 else 1)
      ensures err == OK ==> geo.first < block && !Head(geo, block)
      ensures err == OK ==> FirstFit(geo, old(bitmaps), old(groupFree), goal, block)
      ensures used == old(used) + Run(block, len)
      ensures totalFree == old(totalFree) - len && inode.blocks == old(inode.blocks) + len
    {
      var group, index;
      err, group, index := FindBlock(goal);
      if err != OK {
        return err, 0, 0;
      }
      // a clear start bit is a run of length one
      len := index + 1 - NextZero(bitmaps[group], geo.BitmapLen(group), index);
      if len > wanted {
        len := wanted;
      }
      block := BlockNumber(geo, group, index);
      ClearBit(geo, bitmaps, used, group, index);
      TakeRun(inode, group, index, len);
    }

    /** Sets a run of clear bits of one group and moves the three counts with it. */
    method TakeRun(inode: Inode, group: nat, index: nat, len: nat)
      requires Valid()
      requires group < geo.groups && 0 < index && index + len <= geo.BitmapLen(group)
      requires forall j :: index <= j < index + len ==> !bitmaps[group][j]
      modifies this`bitmaps, this`groupFree, this`totalFree, this`used, inode`blocks
      ensures Valid()
      ensures used == old(used) + Run(geo.Start(group) + index, len)
      ensures totalFree == old(totalFree) - len && inode.blocks == old(inode.blocks) + len
    {
      CountsFit(geo, bitmaps, groupFree, totalFree, group, index, len, true);
      var free := StoredCount(groupFree[group] - len);
      ghost var used' := used + Run(geo.Start(group) + index, len);
      ConsistentAfter(geo, bitmaps, groupFree, totalFree, used, group, index, len, true, free, totalFree - len, used');
      bitmaps := bitmaps[group := Filled(bitmaps[group], index, len, true)];
      groupFree := groupFree[group := free];
      totalFree, used := totalFree - len, used';
      inode.blocks := inode.blocks + len;
    }

    /** Clears a run of set bits of one group and moves the three counts with it. */
    method GiveRun(inode: Inode, group: nat, index: nat, len: nat)
      requires Valid()
      requires group < geo.groups && 0 < index && index + len <= geo.BitmapLen(group)
      requires forall j :: index <= j < index + len ==> bitmaps[group][j]
      modifies this`bitmaps, this`groupFree, this`totalFree, this`used, inode`blocks
      ensures Valid()
      ensures used == old(used) - Run(geo.Start(group) + index, len)
      ensures totalFree == old(totalFree) + len && inode.blocks == old(inode.blocks) - len
    {
      CountsFit(geo, bitmaps, groupFree, totalFree, group, index, len, false);
      var free := StoredCount(groupFree[group] + len);
      ghost var used' := used - Run(geo.Start(group) + index, len);
      ConsistentAfter(geo, bitmaps, groupFree, totalFree, used, group, index, len, false, free, totalFree + len, used');
      bitmaps := bitmaps[group := Filled(bitmaps[group], index, len, false)];
      groupFree := groupFree[group := free];
      totalFree, used := totalFree + len, used';
      inode.blocks := inode.blocks - len;
    }

    /** Scans the groups cyclically for one that still has free blocks. */
    method FindGroup(groupGoal: nat) returns (err: int, group: nat)
      requires Valid()
      requires groupGoal < geo.groups
      ensures err == OK <==> totalFree > 0
      ensures err == OK ==> group < geo.groups && FirstInCycle(groupFree, groupGoal, group)
      ensures err != OK ==> err == ENOSPC
    {
      group := groupGoal;
      ghost var scanned: nat := 0;
      SumZero(groupFree, |groupFree|);
      while groupFree[group] == 0
        invariant group < geo.groups && scanned < geo.groups
        invariant group == (if groupGoal + scanned < geo.groups then groupGoal + scanned
                            else groupGoal + scanned - geo.groups)
        invariant forall g {:trigger groupFree[g]} ::
                    groupGoal <= g < groupGoal + scanned && g < geo.groups ==> groupFree[g] == 0
        invariant forall g {:trigger groupFree[g]} ::
                    0 <= g < groupGoal + scanned - geo.groups ==> groupFree[g] == 0
        decreases geo.groups - scanned
      {
        group := NextGroup(group, geo.groups);
        scanned := scanned + 1;
        if group == groupGoal {
          return ENOSPC, group;
        }
      }
      err := OK;
    }

    /** Gives back a run of allocated blocks, none of them reserved. */
    method FreeBlocks(inode: Inode, block: nat, count: nat)
      requires Valid()
      requires count > 0
      requires Freeable(geo, used, block, count)
      modifies this`bitmaps, this`groupFree, this`totalFree, this`used, inode`blocks
      ensures Valid()
      ensures used == old(used) - Run(block, count)
      ensures totalFree == old(totalFree) + count && inode.blocks == old(inode.blocks) - count
    {
      ghost var g, i := RunAllocated(geo, bitmaps, used, block, count);
      var group, index := BlockPlace(geo, block, g, i);
      GiveRun(inode, group, index, count);
    }
  }

  /** The bits of a run of used blocks, none opening a group, are consecutive set bits of one bitmap. */
  lemma RunAllocated(geo: Geometry, bitmaps: seq<seq<bool>>, used: set<nat>, block: nat, count: nat) returns (g: nat, i: nat)
    requires Shaped(geo, bitmaps) && Marked(geo, bitmaps, used) && count > 0
    requires Freeable(geo, used, block, count)
    ensures geo.At(block, g, i) && 0 < i && i + count <= geo.BitmapLen(g)
    ensures forall j :: i <= j < i + count ==> bitmaps[g][j]
  {
    assert block in Run(block, count);
    assert InUse(geo, bitmaps, block);
    g, i :| geo.At(block, g, i) && bitmaps[g][i];
    RunInGroup(geo, bitmaps, used, block, count, g, i);
  }

  lemma {:induction false} StartsAfterFirst(geo: Geometry, g: nat)
    ensures geo.Start(g) >= geo.first
  {
    if g > 0 {
      StartsAfterFirst(geo, g - 1);
    }
  }
}
