/**
 Who owns which block of the volume: the data blocks of a set of extents, the blocks of its tree,
 and how allocating and freeing move them.
 */
module Ownership {
  import opened ExtentNodes
  import opened ExtentMap
  import opened ExtentLeaf
  import opened BlockAlloc
  import opened Addresses

  /** The physical blocks the extents map. */
  ghost function Data(exts: set<Extent>): set<nat> {
    set e, b | e in exts && b in Run(e.start, e.Len()) :: b
  }

  /** No two extents map a common physical block. */
  ghost predicate PhysApart(exts: set<Extent>) {
    forall e, f {:trigger PhysClear(e, f)} :: e in exts && f in exts && e != f ==> PhysClear(e, f)
  }

  ghost predicate PhysClear(e: Extent, f: Extent) {
    e.start + e.Len() <= f.start || f.start + f.Len() <= e.start
  }

  /** The extents and the tree blocks `blks` own distinct blocks, none of them opening a group. */
  ghost predicate Owner(geo: Geometry, exts: set<Extent>, blks: set<nat>) {
    && PhysApart(exts)
    && Data(exts) !! blks
    && (forall e :: e in exts ==> e.Len() > 0)
    && (forall b {:trigger Head(geo, b)} :: b in Data(exts) || b in blks ==> !Head(geo, b))
  }

  /** The used blocks are those of one owner and, apart from them, those of `others`. */
  ghost predicate Split(used: set<nat>, others: set<nat>, exts: set<Extent>, blks: set<nat>) {
    && used == others + Data(exts) + blks
    && others !! Data(exts) && others !! blks
  }

  // ---------------------------------------------------------------- freeing

  /** Dropping an extent gives up exactly its run. */
  lemma DataMinus(exts: set<Extent>, e: Extent)
    requires PhysApart(exts) && e in exts && e.Len() > 0
    ensures Data(exts - {e}) == Data(exts) - Run(e.start, e.Len())
    ensures Run(e.start, e.Len()) <= Data(exts)
  {
    forall b | b in Data(exts - {e})
      ensures b !in Run(e.start, e.Len())
    {
      var f :| f in exts - {e} && b in Run(f.start, f.Len());
      assert PhysClear(e, f);
    }
    forall b | b in Data(exts) && b !in Run(e.start, e.Len())
      ensures b in Data(exts - {e})
    {
      var f :| f in exts && b in Run(f.start, f.Len());
      assert f in exts - {e};
    }
  }

  lemma FreeExtent(geo: Geometry, used: set<nat>, others: set<nat>, exts: set<Extent>, blks: set<nat>, e: Extent)
    requires Owner(geo, exts, blks) && Split(used, others, exts, blks) && e in exts
    ensures Freeable(geo, used, e.start, e.Len())
    ensures Owner(geo, exts - {e}, blks) && Split(used - Run(e.start, e.Len()), others, exts - {e}, blks)
  {
    DataMinus(exts, e);
    TakeAway(others, Data(exts), blks, Run(e.start, e.Len()));
  }

  lemma TakeAway(others: set<nat>, data: set<nat>, blks: set<nat>, part: set<nat>)
    requires part <= data && others !! data && data !! blks
    ensures others + data + blks - part == others + (data - part) + blks
    ensures others !! data - part && data - part !! blks
  {
  }

  lemma FreeTreeBlock(geo: Geometry, used: set<nat>, others: set<nat>, exts: set<Extent>, blks: set<nat>, b: nat)
    requires Owner(geo, exts, blks) && Split(used, others, exts, blks) && b in blks
    ensures Freeable(geo, used, b, 1)
    ensures Owner(geo, exts, blks - {b}) && Split(used - Run(b, 1), others, exts, blks - {b})
  {
  }

  /** The blocks in use, the free count and the block count of the file before a truncation. */
  datatype Ledger = Ledger(used: set<nat>, free: int, blocks: int)

  /** Since then the blocks `gone` were freed, each of them once, and the counts moved with them. */
  ghost predicate Freed(s0: Ledger, used: set<nat>, free: int, blocks: int, gone: seq<nat>) {
    && NoDup(gone)
    && (forall x {:trigger x in gone} :: x in gone ==> x in s0.used && x !in used)
    && (forall x {:trigger x in used} :: x in used ==> x in s0.used)
    && (forall x {:trigger x in s0.used} :: x in s0.used ==> x in used || x in gone)
    && free == s0.free + |gone| && blocks == s0.blocks - |gone|
  }

  ghost predicate Tallied(s0: Ledger, used: set<nat>, free: int, blocks: int) {
    exists gone :: Freed(s0, used, free, blocks, gone)
  }

  lemma TallyNone(s0: Ledger)
    ensures Tallied(s0, s0.used, s0.free, s0.blocks)
  {
    assert Freed(s0, s0.used, s0.free, s0.blocks, []);
  }

  lemma {:induction false} TallyRun(s0: Ledger, used: set<nat>, free: int, blocks: int, b: nat, len: nat)
    requires Tallied(s0, used, free, blocks) && Run(b, len) <= used
    ensures Tallied(s0, used - Run(b, len), free + len, blocks - len)
  {
    if len == 0 {
      assert used - Run(b, 0) == used;
    } else {
      TallyRun(s0, used, free, blocks, b, len - 1);
      TallyOne(s0, used - Run(b, len - 1), free + len - 1, blocks - (len - 1), b + len - 1);
      assert used - Run(b, len - 1) - {b + len - 1} == used - Run(b, len);
    }
  }

  lemma TallyOne(s0: Ledger, used: set<nat>, free: int, blocks: int, b: nat)
    requires Tallied(s0, used, free, blocks) && b in used
    ensures Tallied(s0, used - {b}, free + 1, blocks - 1)
  {
    var gone :| Freed(s0, used, free, blocks, gone);
    var gone' := gone + [b];
    assert forall x :: x in gone' <==> x in gone || x == b;
    forall i, j | 0 <= i < j < |gone'|
      ensures gone'[i] != gone'[j]
    {
      assert gone'[i] in gone;
    }
    assert Freed(s0, used - {b}, free + 1, blocks - 1, gone');
  }

  /** So free plus used blocks are what they were, and so are used blocks less those of the file. */
  lemma TallySum(s0: Ledger, used: set<nat>, free: int, blocks: int)
    requires Tallied(s0, used, free, blocks)
    ensures free + |used| == s0.free + |s0.used| && blocks - |used| == s0.blocks - |s0.used|
  {
    var gone :| Freed(s0, used, free, blocks, gone);
    NoDupCount(gone);
    assert s0.used == used + Members(gone);
    assert |used + Members(gone)| == |used| + |Members(gone)|;
  }

  // ---------------------------------------------------------------- allocating

  /** The extents gain exactly the run of the extent added. */
  lemma DataAdded(s: set<Extent>, e: Extent, t: set<Extent>)
    requires Added(s, e, t) && e.Len() > 0 && forall f :: f in s ==> f.Len() > 0
    requires PhysApart(s) && Data(s) !! Run(e.start, e.Len())
    ensures Data(t) == Data(s) + Run(e.start, e.Len()) && PhysApart(t)
    ensures forall f :: f in t ==> f.Len() > 0
  {
    if t == s + {e} {
      DataPlus(s, e);
    } else {
      var f :| f in s && CanAppend(f, e) && t == s - {f} + {Append(f, e)};
      DataAppend(s, f, e);
    }
  }

  lemma DataAppend(s: set<Extent>, f: Extent, e: Extent)
    requires f in s && CanAppend(f, e) && e.Len() > 0 && forall x :: x in s ==> x.Len() > 0
    requires PhysApart(s) && Data(s) !! Run(e.start, e.Len())
    ensures var t := s - {f} + {Append(f, e)};
            Data(t) == Data(s) + Run(e.start, e.Len()) && PhysApart(t)
  {
    DataMinus(s, f);
    RunJoin(f, e);
    DataPlus(s - {f}, Append(f, e));
    Rejoin(Data(s), Run(f.start, f.Len()), Run(e.start, e.Len()));
  }

  lemma Rejoin(all: set<nat>, part: set<nat>, more: set<nat>)
    requires part <= all
    ensures all - part + (part + more) == all + more
  {
  }

  lemma RunJoin(f: Extent, e: Extent)
    requires CanAppend(f, e) && e.Len() > 0
    ensures Run(f.start, Append(f, e).Len()) == Run(f.start, f.Len()) + Run(e.start, e.Len())
  {
  }

  lemma DataPlus(s: set<Extent>, e: Extent)
    requires PhysApart(s) && Data(s) !! Run(e.start, e.Len()) && e.Len() > 0 && forall f :: f in s ==> f.Len() > 0
    ensures Data(s + {e}) == Data(s) + Run(e.start, e.Len()) && PhysApart(s + {e})
  {
    forall f | f in s
      ensures f.start + f.Len() <= e.start || e.start + e.Len() <= f.start
    {
      if f.start <= e.start {
        assert e.start in Run(e.start, e.Len());
        assert e.start !in Run(f.start, f.Len());
      } else {
        assert f.start in Run(f.start, f.Len());
        assert f.start in Data(s);
        assert f.start !in Run(e.start, e.Len());
      }
    }
    assert e in s + {e};
  }

  // ---------------------------------------------------------------- owners are logical blocks

  /** The physical blocks the extents own are those their map leads to. */
  lemma OwnedIsMapped(exts: set<Extent>, b: nat)
    requires Disjoint(exts)
    ensures b in Data(exts) <==> exists l :: l in MapOf(exts) && MapOf(exts)[l] == b
  {
    if b in Data(exts) {
      var e :| e in exts && b in Run(e.start, e.Len());
      MapOfCovered(exts, e, e.block + (b - e.start));
    }
    if l :| l in MapOf(exts) && MapOf(exts)[l] == b {
      var e := MapOfDomain(exts, l);
      MapOfCovered(exts, e, l);
      assert b in Run(e.start, e.Len());
    }
  }

  /** No physical block has two logical blocks as owners. */
  lemma OneOwner(exts: set<Extent>, l: nat, m: nat)
    requires PhysApart(exts) && Disjoint(exts)
    requires l in MapOf(exts) && m in MapOf(exts) && MapOf(exts)[l] == MapOf(exts)[m]
    ensures l == m
  {
    var e := MapOfDomain(exts, l);
    var f := MapOfDomain(exts, m);
    MapOfCovered(exts, e, l);
    MapOfCovered(exts, f, m);
    assert e != f ==> PhysClear(e, f);
  }
}
