/**
 A volume with any number of extent files: over every run of block creations and truncations to
 zero, each physical block has at most one owner, owned blocks are marked in use, and the files
 stand for the maps that a plain map machine would hold.
 */
module FileSystem {
  import opened ExtentNodes
  import opened ExtentMap
  import opened ExtentEdit
  import opened ExtentLeaf
  import opened ExtentInsert
  import opened ExtentTree
  import opened ExtentFile
  import opened ExtentTruncate
  import opened Ownership
  import opened Volumes
  import opened BlockAlloc

  // ---------------------------------------------------------------- shares of the used blocks

  /** The used blocks are the reserved ones and, apart from them and from each other, the owners' shares. */
  ghost predicate Shares(used: set<nat>, reserved: set<nat>, owns: seq<set<nat>>) {
    && (forall i :: 0 <= i < |owns| ==> owns[i] <= used && owns[i] !! reserved)
    && (forall i, j :: 0 <= i < j < |owns| ==> owns[i] !! owns[j])
    && reserved <= used
    && (forall b :: b in used && b !in reserved ==> exists i :: 0 <= i < |owns| && b in owns[i])
  }

  lemma SharesApart(used: set<nat>, reserved: set<nat>, owns: seq<set<nat>>, i: nat, j: nat)
    requires Shares(used, reserved, owns) && i < |owns| && j < |owns| && i != j
    ensures owns[i] !! owns[j]
  {
    if i > j {
      assert owns[j] !! owns[i];
    }
  }

  /** One owner gains blocks that nobody used. */
  lemma ShareGrows(used: set<nat>, used': set<nat>, reserved: set<nat>, owns: seq<set<nat>>, k: nat, own': set<nat>)
    requires Shares(used, reserved, owns) && k < |owns|
    requires used' == used + own' && owns[k] <= own' && (own' - owns[k]) !! used
    ensures Shares(used', reserved, owns[k := own'])
  {
    var owns' := owns[k := own'];
    forall b | b in used' && b !in reserved
      ensures exists i :: 0 <= i < |owns'| && b in owns'[i]
    {
      if b in own' {
        assert b in owns'[k];
      } else {
        var i :| 0 <= i < |owns| && b in owns[i];
        assert b in owns'[i];
      }
    }
    forall i | 0 <= i < |owns| && i != k
      ensures owns[i] !! own'
    {
      SharesApart(used, reserved, owns, i, k);
    }
  }

  /** One owner gives up everything. */
  lemma ShareLost(used: set<nat>, reserved: set<nat>, owns: seq<set<nat>>, k: nat)
    requires Shares(used, reserved, owns) && k < |owns|
    ensures Shares(used - owns[k], reserved, owns[k := {}])
  {
    var owns' := owns[k := {}];
    forall b | b in used - owns[k] && b !in reserved
      ensures exists i :: 0 <= i < |owns'| && b in owns'[i]
    {
      var i :| 0 <= i < |owns| && b in owns[i];
      assert b in owns'[i];
    }
    forall i | 0 <= i < |owns| && i != k
      ensures owns[i] !! owns[k]
    {
      SharesApart(used, reserved, owns, i, k);
    }
  }

  // ---------------------------------------------------------------- one file

  /** The blocks a file owns: those it maps and those of its tree. */
  ghost function Own(s: State): set<nat> {
    Data(s.Extents()) + s.Blocks()
  }

  /** A file is a well-formed tree whose blocks are all different, and its block count is their number. */
  ghost predicate GoodFile(geo: Geometry, cap: nat, s: State) {
    && GoodTree(s.disk, cap, s.rec.root, s.rec.depth)
    && Owner(geo, s.Extents(), s.Blocks())
    && s.rec.blocks == |Own(s)|
  }

  /** A file means the same after changes to blocks that it does not use. */
  lemma FileKept(geo: Geometry, cap: nat, s: State, s': State, changed: set<nat>)
    requires GoodFile(geo, cap, s) && s'.rec == s.rec
    requires KeepsOthers(s.disk, s'.disk, changed) && changed !! Own(s)
    ensures GoodFile(geo, cap, s') && Own(s') == Own(s) && s'.Map() == s.Map()
  {
    BlksOnDisk(s.disk, cap, {}, s.rec.root, s.rec.depth, 0, MAX_BLOCKS);
    assert Agree(s.disk, s'.disk, s.Blocks()) by {
      forall b | b in s.Blocks()
        ensures b in s'.disk && s'.disk[b] == s.disk[b]
      {
        assert b in s.disk && b !in changed;
      }
    }
    Frame(s.disk, s'.disk, cap, {}, s.rec.root, s.rec.depth, 0, MAX_BLOCKS);
  }

  /** What a created block adds to the file and to what it owns. */
  lemma CreatedFile(geo: Geometry, cap: nat, s: State, s': State, iblock: nat, pblk: nat)
    requires GoodFile(geo, cap, s) && Own(s) <= s.used && Created(geo, cap, s, s', iblock, pblk, false)
    ensures GoodFile(geo, cap, s') && s'.used == s.used + Own(s')
    ensures Own(s) <= Own(s') && (Own(s') - Own(s)) !! s.used
    ensures s'.Map() == s.Map()[iblock := pblk]
    ensures s.free + |Own(s)| == s'.free + |Own(s')|
  {
    CreatedSets(geo, s.Extents(), s'.Extents(), s.Blocks(), s'.Blocks(), s.used, s'.used, s.free, s'.free,
                s.rec.blocks, s'.rec.blocks, iblock, pblk);
    OneBlockMap(s.Map(), iblock, pblk);
  }

  lemma OneBlockMap(m: map<nat, nat>, iblock: nat, pblk: nat)
    ensures m + ExtentMapOf(Extent(iblock, 1, pblk)) == m[iblock := pblk]
  {
    var e := Extent(iblock, 1, pblk);
    assert e.Covers(iblock) && iblock in ExtentMapOf(e);
    assert forall l :: l in ExtentMapOf(e) ==> e.Covers(l);
  }

  lemma CreatedSets(geo: Geometry, s: set<Extent>, t: set<Extent>, b: set<nat>, b': set<nat>, used: set<nat>, used': set<nat>,
                    free: int, free': int, blocks: int, blocks': int, iblock: nat, pblk: nat)
    requires Owner(geo, s, b) && Data(s) + b <= used && blocks == |Data(s) + b|
    requires pblk !in used && !Head(geo, pblk) && Added(s, Extent(iblock, 1, pblk), t)
    requires Grew(geo, used + {pblk}, used', free - 1, free', blocks + 1, blocks', b, b')
    ensures Owner(geo, t, b') && used' == used + (Data(t) + b') && blocks' == |Data(t) + b'|
    ensures Data(s) + b <= Data(t) + b' && (Data(t) + b' - (Data(s) + b)) !! used
    ensures free + |Data(s) + b| == free' + |Data(t) + b'|
  {
    assert Run(pblk, 1) == {pblk};
    GrewSets(geo, used + {pblk}, used', free - 1, free', blocks + 1, blocks', b, b');
    DataAdded(s, Extent(iblock, 1, pblk), t);
    GrownApart(geo, Data(s), b, b', used, pblk);
    OwnCounts(Data(s), b, b', pblk);
  }

  /** The tree blocks, old and new, stay apart from the data and from the new block. */
  lemma GrownApart(geo: Geometry, data: set<nat>, b: set<nat>, b': set<nat>, used: set<nat>, pblk: nat)
    requires data !! b && data + b <= used && pblk !in used && b <= b'
    requires forall x :: x in b' && x !in b ==> x !in used + {pblk}
    ensures b' !! data && pblk !in b'
    ensures used + {pblk} + b' == used + (data + {pblk} + b')
    ensures (data + {pblk} + b' - (data + b)) !! used
  {
  }

  lemma OwnCounts(data: set<nat>, b: set<nat>, b': set<nat>, p: nat)
    requires b <= b' && data !! b' && p !in data && p !in b'
    ensures |data + {p} + b'| == |data + b| + 1 + (|b'| - |b|)
  {
    assert |data + b| == |data| + |b|;
    assert data + {p} + b' == (data + {p}) + b';
    assert |(data + {p}) + b'| == |data + {p}| + |b'|;
  }

  // ---------------------------------------------------------------- the map machine

  datatype Op = Write(file: nat, block: nat) | Truncate(file: nat)

  /** How a write ended: with the physical block now behind the logical one, or for lack of space. */
  datatype Outcome = Got(pblk: nat) | NoSpace

  type Maps = seq<map<nat, nat>>

  /** One operation on plain maps. */
  ghost function Apply(maps: Maps, op: Op, out: Outcome): Maps {
    if op.file >= |maps| then maps
    else match op
      case Write(f, l) =>
        if l in maps[f] || out.NoSpace? then maps
        else var m: map<nat, nat> := maps[f][l := out.pblk]; maps[f := m]
      // truncation is skipped when block 0 is a hole
      case Truncate(f) => if 0 in maps[f] then maps[f := map[]] else maps
  }

  ghost function Replay(maps: Maps, ops: seq<Op>, outs: seq<Outcome>): Maps
    requires |ops| == |outs|
  {
    if ops == [] then maps
    else Apply(Replay(maps, ops[..|ops| - 1], outs[..|ops| - 1]), ops[|ops| - 1], outs[|ops| - 1])
  }

  /**
   The answer fits the maps before the write: a mapped block is answered with what it is mapped
   to, an unmapped one with a block that no file maps.
   */
  ghost predicate Answered(maps: Maps, op: Op, out: Outcome) {
    op.Write? && op.file < |maps| ==>
      if op.block in maps[op.file] then out == Got(maps[op.file][op.block])
      else out.Got? ==> forall i, l :: 0 <= i < |maps| && l in maps[i] ==> maps[i][l] != out.pblk
  }

  /** A write that the prepend merge may have spoilt: in front of a mapped block, on disk too. */
  ghost predicate InFront(maps: Maps, op: Op, out: Outcome) {
    && op.Write? && op.file < |maps| && out.Got?
    && op.block !in maps[op.file] && Abuts(maps[op.file], op.block, out.pblk)
  }

  /**
   What a write makes of the maps: the next step of the map machine, exactly unless the prepend
   merge applied.
   */
  ghost predicate Wrote(maps: Maps, maps': Maps, op: Op, out: Outcome, prepended: bool) {
    && Answered(maps, op, out)
    && (prepended <==> maps' != Apply(maps, op, out))
    && (prepended ==> InFront(maps, op, out))
  }

  lemma ReplayStep(maps: Maps, ops: seq<Op>, outs: seq<Outcome>, n: nat, out: Outcome)
    requires n < |ops| && |outs| == n
    ensures Replay(maps, ops[..n + 1], outs + [out]) == Apply(Replay(maps, ops[..n], outs), ops[n], out)
  {
    assert ops[..n + 1][..n] == ops[..n];
    assert (outs + [out])[..n] == outs;
  }

  // ---------------------------------------------------------------- all files of a volume

  /** The files of a volume, with the blocks in use and the number of free ones. */
  datatype VolState = VolState(disk: Disk, recs: seq<FileRec>, used: set<nat>, free: int) {
    ghost function File(k: nat): State
      requires k < |recs|
    {
      State(disk, recs[k], used, free)
    }

    ghost function Owns(): (r: seq<set<nat>>)
      ensures |r| == |recs|
    {
      seq(|recs|, i requires 0 <= i < |recs| => Own(File(i)))
    }

    /** What the files mean: their logical-to-physical maps. */
    ghost function Maps(): (r: Maps)
      ensures |r| == |recs|
    {
      seq(|recs|, i requires 0 <= i < |recs| => File(i).Map())
    }

    ghost function Total(): int {
      free + |used|
    }
  }

  ghost predicate GoodVolume(geo: Geometry, cap: nat, v: VolState, reserved: set<nat>) {
    && (forall i {:trigger GoodFile(geo, cap, v.File(i))} :: 0 <= i < |v.recs| ==> GoodFile(geo, cap, v.File(i)))
    && Shares(v.used, reserved, v.Owns())
  }

  /** At most the file `k` is another one. */
  ghost predicate OneFile(v: VolState, v': VolState, k: nat) {
    k < |v.recs| == |v'.recs| && v'.recs == v.recs[k := v'.recs[k]]
  }

  /** Changing file `k` only, in blocks that no other file owns, leaves the other files as they are. */
  lemma OthersKept(geo: Geometry, cap: nat, v: VolState, v': VolState, k: nat, reserved: set<nat>, changed: set<nat>)
    requires GoodVolume(geo, cap, v, reserved) && OneFile(v, v', k) && GoodFile(geo, cap, v'.File(k))
    requires KeepsOthers(v.disk, v'.disk, changed)
    requires forall i :: 0 <= i < |v.recs| && i != k ==> changed !! v.Owns()[i]
    ensures forall i :: 0 <= i < |v'.recs| ==> GoodFile(geo, cap, v'.File(i))
    ensures v'.Owns() == v.Owns()[k := Own(v'.File(k))]
    ensures v'.Maps() == v.Maps()[k := v'.File(k).Map()]
  {
    forall i | 0 <= i < |v'.recs| && i != k
      ensures GoodFile(geo, cap, v'.File(i)) && Own(v'.File(i)) == v.Owns()[i] && v'.File(i).Map() == v.Maps()[i]
    {
      assert changed !! v.Owns()[i];
      FileKept(geo, cap, v.File(i), v'.File(i), changed);
    }
  }

  /** Blocks that file `k` owns, or that nobody used, are not blocks of another file. */
  lemma ChangedApart(used: set<nat>, reserved: set<nat>, owns: seq<set<nat>>, k: nat, own': set<nat>, changed: set<nat>)
    requires Shares(used, reserved, owns) && k < |owns|
    requires (own' - owns[k]) !! used && changed <= own'
    ensures forall i :: 0 <= i < |owns| && i != k ==> changed !! owns[i]
  {
    forall i | 0 <= i < |owns| && i != k
      ensures changed !! owns[i]
    {
      SharesApart(used, reserved, owns, i, k);
      assert owns[i] <= used;
    }
  }

  /** One file of a good volume owns blocks that are in use. */
  lemma FileOwns(geo: Geometry, cap: nat, v: VolState, reserved: set<nat>, k: nat)
    requires GoodVolume(geo, cap, v, reserved) && k < |v.recs|
    ensures GoodFile(geo, cap, v.File(k)) && v.Owns()[k] == Own(v.File(k)) <= v.used
  {
    assert v.Owns()[k] <= v.used;
  }

  lemma VolumeGrows(geo: Geometry, cap: nat, v: VolState, v': VolState, k: nat, reserved: set<nat>, iblock: nat, pblk: nat)
    requires GoodVolume(geo, cap, v, reserved) && OneFile(v, v', k) && iblock !in v.Maps()[k]
    requires Created(geo, cap, v.File(k), v'.File(k), iblock, pblk, false)
    ensures GoodVolume(geo, cap, v', reserved) && v'.Total() == v.Total()
    ensures v'.Maps() == Apply(v.Maps(), Write(k, iblock), Got(pblk))
  {
    FileOwns(geo, cap, v, reserved, k);
    CreatedFile(geo, cap, v.File(k), v'.File(k), iblock, pblk);
    FilesGrow(geo, cap, v, v', k, reserved);
    GrownCount(v.used, Own(v.File(k)), Own(v'.File(k)));
    AppliedWrite(v.Maps(), k, iblock, pblk);
  }

  /** One file gains blocks that nobody used: the other files and all shares stay in order. */
  lemma FilesGrow(geo: Geometry, cap: nat, v: VolState, v': VolState, k: nat, reserved: set<nat>)
    requires GoodVolume(geo, cap, v, reserved) && OneFile(v, v', k) && GoodFile(geo, cap, v'.File(k))
    requires v.Owns()[k] <= Own(v'.File(k)) && (Own(v'.File(k)) - v.Owns()[k]) !! v.used && v'.used == v.used + Own(v'.File(k))
    requires KeepsOthers(v.disk, v'.disk, v'.File(k).Blocks())
    ensures GoodVolume(geo, cap, v', reserved)
    ensures v'.Maps() == v.Maps()[k := v'.File(k).Map()]
  {
    ChangedApart(v.used, reserved, v.Owns(), k, Own(v'.File(k)), v'.File(k).Blocks());
    OthersKept(geo, cap, v, v', k, reserved, v'.File(k).Blocks());
    ShareGrows(v.used, v'.used, reserved, v.Owns(), k, Own(v'.File(k)));
  }

  lemma AppliedWrite(maps: Maps, k: nat, iblock: nat, pblk: nat)
    requires k < |maps| && iblock !in maps[k]
    ensures var m: map<nat, nat> := maps[k][iblock := pblk];
            Apply(maps, Write(k, iblock), Got(pblk)) == maps[k := m]
  {
  }

  lemma GrownCount(used: set<nat>, own: set<nat>, own': set<nat>)
    requires own <= used && own <= own' && (own' - own) !! used
    ensures |used + own'| == |used| + (|own'| - |own|)
  {
    assert used + own' == used + (own' - own);
    assert |used + (own' - own)| == |used| + |own' - own|;
    assert own' == own + (own' - own);
  }

  /** What truncating one file does to it: it loses all its blocks, unless block 0 is a hole. */
  ghost predicate Cleared(s: State, s': State) {
    && KeepsOthers(s.disk, s'.disk, s.Blocks())
    && if 0 in s.Map() then
         && s'.used == s.used - Own(s) && s'.free + |s'.used| == s.free + |s.used|
         && s'.rec.root == Leaf([], ROOT_CAP) && s'.rec.depth == 0 && s'.rec.blocks - |s'.used| == s.rec.blocks - |s.used|
       else
         s' == s
  }

  lemma VolumeShrinks(geo: Geometry, cap: nat, v: VolState, v': VolState, k: nat, reserved: set<nat>)
    requires GoodVolume(geo, cap, v, reserved) && OneFile(v, v', k)
    requires Cleared(v.File(k), v'.File(k)) && 0 in v.Maps()[k]
    ensures GoodVolume(geo, cap, v', reserved) && v'.Total() == v.Total()
    ensures v'.Maps() == v.Maps()[k := map[]]
  {
    var own := Own(v.File(k));
    FileOwns(geo, cap, v, reserved, k);
    LostCount(v.used, own);
    EmptyFile(geo, cap, v'.File(k));
    ChangedApart(v.used, reserved, v.Owns(), k, own, v.File(k).Blocks());
    OthersKept(geo, cap, v, v', k, reserved, v.File(k).Blocks());
    ShareLost(v.used, reserved, v.Owns(), k);
  }

  lemma LostCount(used: set<nat>, own: set<nat>)
    requires own <= used
    ensures |used - own| == |used| - |own|
  {
    assert used == (used - own) + own;
  }

  lemma EmptyFile(geo: Geometry, cap: nat, s: State)
    requires s.rec == FileRec(Leaf([], ROOT_CAP), 0, 0)
    ensures GoodFile(geo, cap, s) && Own(s) == {} && s.Map() == map[]
  {
    assert s.Extents() == {};
    assert Data({}) == {};
    assert Domain({}) == {};
  }

  lemma VolumeTruncated(geo: Geometry, cap: nat, v: VolState, v': VolState, k: nat, reserved: set<nat>)
    requires GoodVolume(geo, cap, v, reserved) && OneFile(v, v', k) && Cleared(v.File(k), v'.File(k))
    ensures GoodVolume(geo, cap, v', reserved) && v'.Total() == v.Total()
    ensures v'.Maps() == Apply(v.Maps(), Truncate(k), NoSpace)
  {
    AppliedTruncate(v.Maps(), k);
    if 0 in v.Maps()[k] {
      VolumeShrinks(geo, cap, v, v', k, reserved);
    } else {
      assert v'.recs == v.recs && v' == v;
    }
  }

  lemma AppliedTruncate(maps: Maps, k: nat)
    requires k < |maps|
    ensures Apply(maps, Truncate(k), NoSpace) == if 0 in maps[k] then maps[k := map[]] else maps
  {
  }

  // ---------------------------------------------------------------- one owner per block

  /** A way to own a block: as what a logical block of a file leads to, or as a node of a file's tree. */
  datatype Title = Mapped(file: nat, block: nat) | TreeNode(file: nat)

  ghost predicate Holds(v: VolState, t: Title, b: nat) {
    && t.file < |v.recs|
    && match t
       case Mapped(f, l) => l in v.File(f).Map() && v.File(f).Map()[l] == b
       case TreeNode(f) => b in v.File(f).Blocks()
  }

  /** In one file, the blocks held by logical blocks are data blocks, and those held by nodes are not. */
  lemma HeldInFile(geo: Geometry, cap: nat, s: State, b: nat)
    requires GoodFile(geo, cap, s)
    ensures Disjoint(s.Extents())
    ensures b in Data(s.Extents()) <==> Reached(s.Map(), b)
    ensures b in s.Blocks() ==> b !in Data(s.Extents())
  {
    GoodDisjoint(s.disk, cap, {}, s.rec.root, s.rec.depth, 0, MAX_BLOCKS);
    OwnedIsMapped(s.Extents(), b);
  }

  /** Some logical block leads to the block. */
  ghost predicate Reached(m: map<nat, nat>, b: nat) {
    exists l :: l in m && m[l] == b
  }

  lemma HeldIsOwned(geo: Geometry, cap: nat, v: VolState, reserved: set<nat>, t: Title, b: nat)
    requires GoodVolume(geo, cap, v, reserved) && Holds(v, t, b)
    ensures b in v.Owns()[t.file] && b in v.used && b !in reserved
    ensures t.Mapped? <==> b in Data(v.File(t.file).Extents())
  {
    HeldInFile(geo, cap, v.File(t.file), b);
    SharedOut(v.used, reserved, v.Owns(), t.file, b);
  }

  lemma SharedOut(used: set<nat>, reserved: set<nat>, owns: seq<set<nat>>, i: nat, b: nat)
    requires Shares(used, reserved, owns) && i < |owns| && b in owns[i]
    ensures b in used && b !in reserved
  {
  }

  /** No block of a good volume has two owners, and every owned block is marked in use. */
  lemma SoleOwner(geo: Geometry, cap: nat, v: VolState, reserved: set<nat>, t: Title, u: Title, b: nat)
    requires GoodVolume(geo, cap, v, reserved) && Holds(v, t, b) && Holds(v, u, b)
    ensures t == u && b in v.used && b !in reserved
  {
    HeldIsOwned(geo, cap, v, reserved, t, b);
    HeldIsOwned(geo, cap, v, reserved, u, b);
    if t.file != u.file {
      SharesApart(v.used, reserved, v.Owns(), t.file, u.file);
    } else if t.Mapped? && u.Mapped? {
      HeldInFile(geo, cap, v.File(t.file), b);
      OneOwner(v.File(t.file).Extents(), t.block, u.block);
    }
  }

  /** Every used block that is not reserved has an owner: no block leaks. */
  lemma NoLeak(geo: Geometry, cap: nat, v: VolState, reserved: set<nat>, b: nat) returns (t: Title)
    requires GoodVolume(geo, cap, v, reserved) && b in v.used && b !in reserved
    ensures Holds(v, t, b)
  {
    var i :| 0 <= i < |v.Owns()| && b in v.Owns()[i];
    HeldInFile(geo, cap, v.File(i), b);
    if b in v.File(i).Blocks() {
      t := TreeNode(i);
    } else {
      var m := v.File(i).Map();
      var l :| l in m && m[l] == b;
      t := Mapped(i, l);
    }
  }

  /** A block that is not in use is mapped by no file. */
  lemma UnusedUnmapped(geo: Geometry, cap: nat, v: VolState, reserved: set<nat>, b: nat)
    requires GoodVolume(geo, cap, v, reserved) && b !in v.used
    ensures var maps := v.Maps(); forall i, l :: 0 <= i < |maps| && l in maps[i] ==> maps[i][l] != b
  {
    var maps := v.Maps();
    forall i, l | 0 <= i < |maps| && l in maps[i]
      ensures maps[i][l] != b
    {
      if maps[i][l] == b {
        HeldIsOwned(geo, cap, v, reserved, Mapped(i, l), b);
      }
    }
  }

  // ---------------------------------------------------------------- a write to one file

  lemma WroteRight(geo: Geometry, cap: nat, v: VolState, v': VolState, k: nat, reserved: set<nat>, iblock: nat, pblk: nat)
    requires GoodVolume(geo, cap, v, reserved) && OneFile(v, v', k) && iblock !in v.Maps()[k]
    requires Created(geo, cap, v.File(k), v'.File(k), iblock, pblk, false)
    ensures GoodVolume(geo, cap, v', reserved) && v'.Total() == v.Total()
    ensures Wrote(v.Maps(), v'.Maps(), Write(k, iblock), Got(pblk), false)
  {
    UnusedUnmapped(geo, cap, v, reserved, pblk);
    VolumeGrows(geo, cap, v, v', k, reserved, iblock, pblk);
  }

  lemma NotUpdated(maps: Maps, maps': Maps, k: nat, m: map<nat, nat>)
    requires k < |maps| == |maps'| && maps'[k] != m
    ensures maps' != maps[k := m]
  {
  }

  lemma WroteWrong(geo: Geometry, cap: nat, v: VolState, v': VolState, k: nat, reserved: set<nat>, iblock: nat, pblk: nat)
    requires GoodVolume(geo, cap, v, reserved) && k < |v.recs| == |v'.recs| && iblock !in v.Maps()[k]
    requires Created(geo, cap, v.File(k), v'.File(k), iblock, pblk, true)
    ensures Wrote(v.Maps(), v'.Maps(), Write(k, iblock), Got(pblk), true)
  {
    UnusedUnmapped(geo, cap, v, reserved, pblk);
    OneBlockMap(v.Maps()[k], iblock, pblk);
    AppliedWrite(v.Maps(), k, iblock, pblk);
    NotUpdated(v.Maps(), v'.Maps(), k, v.Maps()[k][iblock := pblk]);
  }

  /** What writing to a block of one file does to it, and how it is answered; `can` if the block can be created. */
  ghost predicate Placed(geo: Geometry, cap: nat, s: State, s': State, can: bool, block: nat, out: Outcome, prepended: bool) {
    if block !in s.Map() && can then
      && out.Got? && Created(geo, cap, s, s', block, out.pblk, prepended)
      && (prepended <==> Merging(s.disk, s.rec.root, s.rec.depth, Extent(block, 1, out.pblk)))
    else
      && out == (if block in s.Map() then Got(s.Map()[block]) else NoSpace) && !prepended && s' == s
  }

  /** The operation creates a block that the prepend merge applies to. */
  ghost predicate Spoils(v: VolState, op: Op, out: Outcome) {
    && op.Write? && op.file < |v.recs| && out.Got?
    && op.block !in v.File(op.file).Map()
    && Merging(v.disk, v.recs[op.file].root, v.recs[op.file].depth, Extent(op.block, 1, out.pblk))
  }

  lemma VolumeWritten(geo: Geometry, cap: nat, v: VolState, v': VolState, k: nat, reserved: set<nat>, can: bool, block: nat,
                      out: Outcome, prepended: bool)
    requires GoodVolume(geo, cap, v, reserved) && OneFile(v, v', k)
    requires Placed(geo, cap, v.File(k), v'.File(k), can, block, out, prepended)
    ensures out == NoSpace <==> block !in v.Maps()[k] && !can
    ensures Wrote(v.Maps(), v'.Maps(), Op.Write(k, block), out, prepended)
    ensures prepended <==> Spoils(v, Op.Write(k, block), out)
    ensures !prepended ==> GoodVolume(geo, cap, v', reserved) && v'.Total() == v.Total()
  {
    if block in v.Maps()[k] || !can {
      assert v'.recs == v.recs && v' == v;
    } else if prepended {
      WroteWrong(geo, cap, v, v', k, reserved, block, out.pblk);
    } else {
      WroteRight(geo, cap, v, v', k, reserved, block, out.pblk);
    }
  }

  // ---------------------------------------------------------------- one file by its inode

  /** Finds or creates a block of one file. */
  method WriteInode(vol: Volume, inode: Inode, alloc: BlockAllocator, block: nat, maxBlocks: nat, goal: nat)
    returns (out: Outcome, prepended: bool)
    requires alloc.Valid() && vol.cap > ROOT_CAP && block < MAX_BLOCKS && maxBlocks > 0
    requires GoodTree(vol.disk, vol.cap, inode.root, inode.depth) && Blks(vol.disk, inode.root, inode.depth) <= alloc.used
    requires block in StateOf(vol, inode, alloc).Map() || alloc.totalFree <= 1
             || CanCreate(alloc, goal, vol.disk, inode.root, inode.depth, block)
    modifies vol`disk, inode, alloc`bitmaps, alloc`groupFree, alloc`totalFree, alloc`used
    ensures alloc.Valid()
    ensures Placed(alloc.geo, vol.cap, old(StateOf(vol, inode, alloc)), StateOf(vol, inode, alloc),
                   old(CanCreate(alloc, goal, vol.disk, inode.root, inode.depth, block)), block, out, prepended)
  {
    var ret, pblk;
    ret, pblk, prepended := GetBlocks(vol, inode, alloc, block, maxBlocks, true, goal);
    out := if ret < 0 then NoSpace else Got(pblk);
  }

  /** Removes the blocks of one file. */
  method ClearInode(vol: Volume, inode: Inode, alloc: BlockAllocator)
    requires alloc.Valid() && GoodFile(alloc.geo, vol.cap, StateOf(vol, inode, alloc))
    requires Own(StateOf(vol, inode, alloc)) <= alloc.used
    modifies vol`disk, inode, alloc`bitmaps, alloc`groupFree, alloc`totalFree, alloc`used
    ensures alloc.Valid() && Cleared(old(StateOf(vol, inode, alloc)), StateOf(vol, inode, alloc))
  {
    ghost var exts, blks := Exts(vol.disk, inode.root, inode.depth), Blks(vol.disk, inode.root, inode.depth);
    SplitShare(alloc.geo, alloc.used, exts, blks);
    RemoveSpace(vol, inode, alloc, alloc.used - (Data(exts) + blks));
  }

  lemma SplitShare(geo: Geometry, used: set<nat>, exts: set<Extent>, blks: set<nat>)
    requires Data(exts) + blks <= used
    ensures Split(used, used - (Data(exts) + blks), exts, blks)
  {
  }

  // ---------------------------------------------------------------- the file system object

  class Files {
    const vol: Volume
    const alloc: BlockAllocator
    const files: seq<Inode>
    /* blocks of the volume's own metadata */
    ghost const reserved: set<nat>

    constructor (vol: Volume, alloc: BlockAllocator, files: seq<Inode>)
      requires alloc.Valid() && vol.cap > ROOT_CAP
      requires forall i, j :: 0 <= i < j < |files| ==> files[i] != files[j]
      requires forall i :: 0 <= i < |files| ==>
                 files[i].root == Leaf([], ROOT_CAP) && files[i].depth == 0 && files[i].blocks == 0
      ensures Valid() && this.vol == vol && this.alloc == alloc && this.files == files && reserved == alloc.used
      ensures forall i :: 0 <= i < |files| ==> Contents()[i] == map[]
    {
      this.vol, this.alloc, this.files, this.reserved := vol, alloc, files, alloc.used;
      new;
      forall i | 0 <= i < |files|
        ensures GoodFile(alloc.geo, vol.cap, Now().File(i)) && Own(Now().File(i)) == {} && Now().File(i).Map() == map[]
      {
        EmptyFile(alloc.geo, vol.cap, Now().File(i));
      }
    }

    ghost function Recs(): (r: seq<FileRec>)
      reads this, files
      ensures |r| == |files|
    {
      seq(|files|, i requires 0 <= i < |files| reads this, files => FileRec(files[i].root, files[i].depth, files[i].blocks))
    }

    ghost function Now(): (v: VolState)
      reads this, vol, alloc, files
      ensures |v.recs| == |files|
    {
      VolState(vol.disk, Recs(), alloc.used, alloc.totalFree)
    }

    ghost function Contents(): Maps
      reads this, vol, alloc, files
    {
      Now().Maps()
    }

    ghost predicate Distinct()
      reads this
    {
      forall i, j :: 0 <= i < |files| && 0 <= j < |files| && i != j ==> files[i] != files[j]
    }

    ghost predicate Valid()
      reads this, vol, alloc, files
    {
      alloc.Valid() && vol.cap > ROOT_CAP && Distinct() && GoodVolume(alloc.geo, vol.cap, Now(), reserved)
    }

    /** Only file `f` changed among the files. */
    twostate lemma OneChanged(f: nat)
      requires f < |files| && Distinct()
      requires forall o: Inode :: o in files && o != files[f] ==>
                 o.root == old(o.root) && o.depth == old(o.depth) && o.blocks == old(o.blocks)
      ensures OneFile(old(Now()), Now(), f)
      ensures old(Now()).File(f) == old(StateOf(vol, files[f], alloc)) && Now().File(f) == StateOf(vol, files[f], alloc)
    {
    }

    /**
     The block is mapped, or the blocks that are free suffice to create it, or at most one is free,
     so that a creation that fails does so before it changes anything.
     */
    ghost predicate Settled(f: nat, block: nat, goal: nat)
      requires alloc.Valid() && f < |files|
      reads this, vol, alloc, files
    {
      block in Now().File(f).Map() || alloc.totalFree <= 1 || Creatable(f, block, goal)
    }

    ghost predicate Creatable(f: nat, block: nat, goal: nat)
      requires alloc.Valid() && f < |files|
      reads this, vol, alloc, files
    {
      CanCreate(alloc, goal, vol.disk, files[f].root, files[f].depth, block)
    }

    /**
     Writes to a block of a file.  A mapped block, and one for which the free blocks do not suffice,
     leave everything as it is; else the file gains one block.  Unless the prepend merge applied, all
     files stay good, the other files keep their contents, and free plus used blocks stay constant.
     */
    method Write(f: nat, block: nat, maxBlocks: nat, goal: nat) returns (out: Outcome, prepended: bool)
      requires Valid() && f < |files| && block < MAX_BLOCKS && maxBlocks > 0
      requires Settled(f, block, goal)
      modifies vol`disk, files[f], alloc`bitmaps, alloc`groupFree, alloc`totalFree, alloc`used
      ensures out == NoSpace <==> block !in old(Contents())[f] && !old(Creatable(f, block, goal))
      ensures Wrote(old(Contents()), Contents(), Op.Write(f, block), out, prepended)
      ensures |old(Contents())| > f
              && var m := old(Contents())[f];
                 if block in m then out == Got(m[block]) && Contents() == old(Contents())
                 else if out.NoSpace? then Contents() == old(Contents())
                 else
                   var m': map<nat, nat> := m[block := out.pblk];
                   !prepended ==> Contents() == old(Contents())[f := m']
      ensures prepended <==> Spoils(old(Now()), Op.Write(f, block), out)
      ensures !prepended ==> Valid() && Now().Total() == old(Now()).Total()
    {
      ghost var v, can := Now(), Creatable(f, block, goal);
      FileOwns(alloc.geo, vol.cap, v, reserved, f);
      out, prepended := WriteInode(vol, files[f], alloc, block, maxBlocks, goal);
      OneChanged(f);
      VolumeWritten(alloc.geo, vol.cap, v, Now(), f, reserved, can, block, out, prepended);
    }

    /**
     Truncates a file to zero.  Unless block 0 is a hole the file loses all its blocks; the other
     files keep their contents, and free plus used blocks stay constant.
     */
    method Truncate(f: nat)
      requires Valid() && f < |files|
      modifies vol`disk, files[f], alloc`bitmaps, alloc`groupFree, alloc`totalFree, alloc`used
      ensures Valid() && Now().Total() == old(Now()).Total()
      ensures Contents() == Apply(old(Contents()), Op.Truncate(f), NoSpace)
      ensures |old(Contents())| > f
              && Contents() == if 0 in old(Contents())[f] then old(Contents())[f := map[]] else old(Contents())
    {
      ghost var v := Now();
      FileOwns(alloc.geo, vol.cap, v, reserved, f);
      ClearInode(vol, files[f], alloc);
      OneChanged(f);
      VolumeTruncated(alloc.geo, vol.cap, v, Now(), f, reserved);
    }
  }

  // ---------------------------------------------------------------- runs

  /** Every answer of a run fits what the map machine held before the operation. */
  ghost predicate AllAnswered(maps: Maps, ops: seq<Op>, outs: seq<Outcome>)
    requires |outs| <= |ops|
  {
    forall n {:trigger outs[n]} :: 0 <= n < |outs| ==> Answered(Replay(maps, ops[..n], outs[..n]), ops[n], outs[n])
  }

  lemma AnsweredStep(maps: Maps, ops: seq<Op>, outs: seq<Outcome>, out: Outcome)
    requires |outs| < |ops| && AllAnswered(maps, ops, outs)
    requires Answered(Replay(maps, ops[..|outs|], outs), ops[|outs|], out)
    ensures AllAnswered(maps, ops, outs + [out])
  {
    var outs' := outs + [out];
    forall n | 0 <= n < |outs'|
      ensures Answered(Replay(maps, ops[..n], outs'[..n]), ops[n], outs'[n])
    {
      assert n < |outs| ==> outs'[n] == outs[n];
      assert outs'[..n] == outs[..n];
    }
  }

  /** The last operation of the run left something else than the map machine holds, by a prepend merge. */
  ghost predicate Spoilt(maps: Maps, maps': Maps, ops: seq<Op>, outs: seq<Outcome>)
    requires |outs| <= |ops|
  {
    && |outs| > 0
    && maps' != Replay(maps, ops[..|outs|], outs)
    && var n := |outs| - 1; InFront(Replay(maps, ops[..n], outs[..n]), ops[n], outs[n])
  }

  /**
   What a run of operations makes of the maps: what the map machine makes of them, unless the last
   operation was a prepend merge.
   */
  ghost predicate Ran(maps: Maps, maps': Maps, ops: seq<Op>, outs: seq<Outcome>, prepended: bool) {
    && |outs| <= |ops|
    && AllAnswered(maps, ops, outs)
    && if prepended then Spoilt(maps, maps', ops, outs) else maps' == Replay(maps, ops[..|outs|], outs)
  }

  lemma RanStep(maps: Maps, before: Maps, maps': Maps, ops: seq<Op>, outs: seq<Outcome>, out: Outcome, prepended: bool)
    requires |outs| < |ops| && Ran(maps, before, ops, outs, false)
    requires Wrote(before, maps', ops[|outs|], out, prepended)
    ensures Ran(maps, maps', ops, outs + [out], prepended)
  {
    ReplayStep(maps, ops, outs, |outs|, out);
    AnsweredStep(maps, ops, outs, out);
    assert (outs + [out])[..|outs|] == outs;
  }

  /** `last` is the volume before the last operation, which was spoilt exactly if the prepend merge applied to it. */
  ghost predicate LastStep(maps: Maps, last: VolState, ops: seq<Op>, outs: seq<Outcome>, prepended: bool)
    requires |outs| <= |ops|
  {
    if |outs| == 0 then !prepended
    else
      var n := |outs| - 1;
      last.Maps() == Replay(maps, ops[..n], outs[..n]) && (prepended <==> Spoils(last, ops[n], outs[n]))
  }

  /** A run so far, and the volume before its last operation. */
  ghost predicate RunSoFar(maps: Maps, maps': Maps, last: VolState, ops: seq<Op>, outs: seq<Outcome>, prepended: bool) {
    Ran(maps, maps', ops, outs, prepended) && LastStep(maps, last, ops, outs, prepended)
  }

  lemma RunStep(maps: Maps, maps': Maps, last0: VolState, last: VolState, ops: seq<Op>, outs: seq<Outcome>, out: Outcome,
                prepended: bool)
    requires |outs| < |ops| && RunSoFar(maps, last.Maps(), last0, ops, outs, false)
    requires Wrote(last.Maps(), maps', ops[|outs|], out, prepended) && (prepended <==> Spoils(last, ops[|outs|], out))
    ensures RunSoFar(maps, maps', last, ops, outs + [out], prepended)
  {
    RanStep(maps, last.Maps(), maps', ops, outs, out, prepended);
    assert (outs + [out])[..|outs|] == outs;
  }

  /**
   Runs operations one after the other.  As long as no prepend merge applied, the volume stays
   good, the contents of the files are those of the map machine fed with the same operations, and
   free plus used blocks stay what they were.  The prepend merge applies exactly when its guard
   holds of the volume `last` before the operation, which takes a write in front of a mapped block.
   The run only stops early there, or at a creation with two or more blocks free that do not suffice.
   */
  method RunOps(fs: Files, ops: seq<Op>, maxBlocks: nat, goals: seq<nat>)
    returns (outs: seq<Outcome>, prepended: bool, ghost last: VolState)
    requires fs.Valid() && maxBlocks > 0 && |goals| == |ops|
    requires forall i :: 0 <= i < |ops| && ops[i].Write? ==> ops[i].block < MAX_BLOCKS
    modifies fs.vol`disk, fs.files, fs.alloc`bitmaps, fs.alloc`groupFree, fs.alloc`totalFree, fs.alloc`used
    ensures Ran(old(fs.Contents()), fs.Contents(), ops, outs, prepended)
    ensures LastStep(old(fs.Contents()), last, ops, outs, prepended)
    ensures !prepended ==> fs.Valid() && fs.Now().Total() == old(fs.Now()).Total()
    ensures !prepended && |outs| < |ops| ==> StopsAt(fs, ops[|outs|], goals[|outs|])
  {
    outs, prepended, last := [], false, fs.Now();
    ghost var maps, sum := fs.Contents(), fs.Now().Total();
    var going := true;
    while going && |outs| < |ops|
      invariant RunSoFar(maps, fs.Contents(), last, ops, outs, prepended) && (going ==> !prepended)
      invariant !prepended ==> Sound(fs, sum)
      invariant !prepended && !going ==> |outs| < |ops| && StopsAt(fs, ops[|outs|], goals[|outs|])
      decreases |ops| - |outs|, going
    {
      going, outs, prepended, last := RunNext(fs, ops, maxBlocks, goals[|outs|], outs, maps, last, sum);
    }
  }

  ghost predicate Sound(fs: Files, sum: int)
    reads fs, fs.vol, fs.alloc, fs.files
  {
    fs.Valid() && fs.Now().Total() == sum
  }

  /** The run cannot go on with the operation: it creates a block for which the free blocks do not suffice. */
  ghost predicate StopsAt(fs: Files, op: Op, goal: nat)
    reads fs, fs.vol, fs.alloc, fs.files
  {
    op.Write? && op.file < |fs.files| && fs.alloc.Valid() && !fs.Settled(op.file, op.block, goal)
  }

  /** The next operation of a run, if the run can go on with it. */
  method RunNext(fs: Files, ops: seq<Op>, maxBlocks: nat, goal: nat, outs: seq<Outcome>, ghost maps: Maps, ghost last: VolState,
                 ghost sum: int)
    returns (going: bool, outs': seq<Outcome>, prepended: bool, ghost last': VolState)
    requires Sound(fs, sum) && maxBlocks > 0 && |outs| < |ops| && RunSoFar(maps, fs.Contents(), last, ops, outs, false)
    requires ops[|outs|].Write? ==> ops[|outs|].block < MAX_BLOCKS
    modifies fs.vol`disk, fs.files, fs.alloc`bitmaps, fs.alloc`groupFree, fs.alloc`totalFree, fs.alloc`used
    ensures RunSoFar(maps, fs.Contents(), last', ops, outs', prepended)
    ensures !prepended ==> Sound(fs, sum)
    ensures if going then !prepended && |outs'| == |outs| + 1 else (prepended && |outs'| == |outs| + 1) || (outs' == outs && StopsAt(fs, ops[|outs|], goal))
  {
    outs', prepended, last' := outs, false, last;
    going := CheckOp(fs, ops[|outs|], goal);
    if going {
      last' := fs.Now();
      var out;
      out, prepended := RunOp(fs, ops[|outs|], maxBlocks, goal);
      RunStep(maps, fs.Contents(), last, last', ops, outs, out, prepended);
      outs', going := outs + [out], !prepended;
    }
  }

  /** Whether the operation changes nothing or can be carried out as a whole. */
  method CheckOp(fs: Files, op: Op, goal: nat) returns (ok: bool)
    requires fs.Valid() && (op.Write? ==> op.block < MAX_BLOCKS)
    ensures ok <==> !StopsAt(fs, op, goal)
  {
    ok := true;
    if op.Write? && op.file < |fs.files| {
      FileOwns(fs.alloc.geo, fs.vol.cap, fs.Now(), fs.reserved, op.file);
      ok := CheckCreate(fs.vol, fs.files[op.file], fs.alloc, op.block, goal);
    }
  }

  method RunOp(fs: Files, op: Op, maxBlocks: nat, goal: nat) returns (out: Outcome, prepended: bool)
    requires fs.Valid() && maxBlocks > 0
    requires op.Write? ==> op.block < MAX_BLOCKS
    requires !StopsAt(fs, op, goal)
    modifies fs.vol`disk, fs.files, fs.alloc`bitmaps, fs.alloc`groupFree, fs.alloc`totalFree, fs.alloc`used
    ensures Wrote(old(fs.Contents()), fs.Contents(), op, out, prepended)
    ensures prepended <==> Spoils(old(fs.Now()), op, out)
    ensures !prepended ==> fs.Valid() && fs.Now().Total() == old(fs.Now()).Total()
  {
    out, prepended := NoSpace, false;
    if op.file < |fs.files| {
      match op
      case Write(f, l) => out, prepended := fs.Write(f, l, maxBlocks, goal);
      case Truncate(f) => fs.Truncate(f);
    }
  }
}
