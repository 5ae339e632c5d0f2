/**
 The directory-entry cache: a tree of entries in memory in which the children of an entry form one
 circular list, and the path walk that uses it.
 */
module Dcache {
  import opened Addresses

  type Name = seq<char>
  type Ref = nat
  const NULL: Ref := 0

  /* Size of the name field of an entry on 64-bit machines, with the terminating zero. */
  const NAME_LEN: nat := 40
  const ROOT_INODE: nat := 2

  datatype Entry = Entry(childs: Ref, siblings: Ref, inode: nat, name: Name)

  type Mem = map<Ref, Entry>

  // ---------------------------------------------------------------- sibling lists

  /** The node after position `i` of a circular list. */
  ghost function Succ(ring: seq<Ref>, i: nat): Ref
    requires i < |ring|
  {
    if i + 1 < |ring| then ring[i + 1] else ring[0]
  }

  /** From `first` on, the sibling links go once around the ring and back. */
  ghost predicate Ring(m: Mem, first: Ref, ring: seq<Ref>) {
    && NoDup(ring)
    && (if ring == [] then first == NULL else first == ring[0])
    && (forall i :: 0 <= i < |ring| ==> ring[i] != NULL && ring[i] in m)
    && (forall i {:trigger Succ(ring, i)} :: 0 <= i < |ring| ==> m[ring[i]].siblings == Succ(ring, i))
  }

  /** A ring read from another starting point. */
  ghost function Rotated(ring: seq<Ref>, i: nat): seq<Ref>
    requires i <= |ring|
  {
    ring[i..] + ring[..i]
  }

  lemma RotatedRing(m: Mem, first: Ref, ring: seq<Ref>, i: nat)
    requires Ring(m, first, ring) && i < |ring|
    ensures Ring(m, ring[i], Rotated(ring, i))
    ensures forall x :: x in Rotated(ring, i) <==> x in ring
  {
    var r := Rotated(ring, i);
    forall k | 0 <= k < |r|
      ensures r[k] == ring[if k + i < |ring| then k + i else k + i - |ring|]
    {
    }
    forall k | 0 <= k < |r|
      ensures m[r[k]].siblings == Succ(r, k)
    {
      var j := if k + i < |ring| then k + i else k + i - |ring|;
      assert m[ring[j]].siblings == Succ(ring, j);
    }
  }

  /** A new node linked in after the first one, and then made the first. */
  ghost function With(ring: seq<Ref>, e: Ref): seq<Ref> {
    if ring == [] then [e] else [e] + ring[1..] + [ring[0]]
  }

  lemma WithRing(m: Mem, m': Mem, first: Ref, ring: seq<Ref>, e: Ref)
    requires Ring(m, first, ring) && e != NULL && e !in ring && e in m'
    requires if ring == [] then m'[e].siblings == e
             else m'[e].siblings == m[first].siblings && first in m' && m'[first].siblings == e
    requires forall x :: x in ring && x != first ==> x in m' && m'[x].siblings == m[x].siblings
    ensures Ring(m', e, With(ring, e))
    ensures forall x :: x in With(ring, e) <==> x in ring || x == e
  {
    var r := With(ring, e);
    forall k | 0 <= k < |r|
      ensures r[k] == if k == 0 then e else if k < |ring| then ring[k] else ring[0]
    {
    }
    forall k | 0 <= k < |r|
      ensures r[k] in m' && m'[r[k]].siblings == Succ(r, k)
    {
      if 0 < k < |ring| {
        assert m[ring[k]].siblings == Succ(ring, k);
      } else if k == 0 && ring != [] {
        assert m[ring[0]].siblings == Succ(ring, 0);
      }
    }
    forall x | x in ring
      ensures x in r
    {
      var k :| 0 <= k < |ring| && ring[k] == x;
      assert r[if k == 0 then |ring| else k] == x;
    }
  }

  /** Changes outside a ring keep it. */
  lemma KeepRing(m: Mem, m': Mem, first: Ref, ring: seq<Ref>)
    requires Ring(m, first, ring)
    requires forall x :: x in ring ==> x in m' && m'[x].siblings == m[x].siblings
    ensures Ring(m', first, ring)
  {
  }

  // ---------------------------------------------------------------- directories

  /** A directory entry; a deleted one has inode 0. */
  datatype Dentry = Dentry(inode: nat, name: Name)

  /** The directories of the volume by inode; other inodes have no entries. */
  type Dirs = map<nat, seq<Dentry>>

  /** The inode of a name in a list of directory entries, or 0. */
  function Find(dents: seq<Dentry>, name: Name): nat {
    if dents == [] then 0
    else if dents[0].inode != 0 && dents[0].name == name then dents[0].inode
    else Find(dents[1..], name)
  }

  /** The answer is the inode of the first entry that is not deleted and has exactly the name, and 0 if there is none. */
  lemma {:induction false} FindFirst(dents: seq<Dentry>, name: Name)
    ensures Find(dents, name) == 0 <==> forall i :: 0 <= i < |dents| && dents[i].name == name ==> dents[i].inode == 0
    ensures Find(dents, name) != 0 ==>
              exists i :: 0 <= i < |dents| && dents[i].name == name && dents[i].inode == Find(dents, name)
                          && forall j :: 0 <= j < i && dents[j].name == name ==> dents[j].inode == 0
  {
    if dents != [] {
      var rest := dents[1..];
      FindFirst(rest, name);
      assert forall i :: 0 < i < |dents| ==> dents[i] == rest[i - 1];
      if dents[0].inode != 0 && dents[0].name == name {
        assert dents[0].inode == Find(dents, name);
      } else if Find(rest, name) != 0 {
        var i :| 0 <= i < |rest| && rest[i].name == name && rest[i].inode == Find(rest, name)
                 && forall j :: 0 <= j < i && rest[j].name == name ==> rest[j].inode == 0;
        assert dents[i + 1].name == name && dents[i + 1].inode == Find(dents, name);
      } else {
        assert forall i :: 0 <= i < |rest| ==> rest[i] == dents[i + 1];
      }
    }
  }

  function Step(dirs: Dirs, ino: nat, name: Name): nat {
    if ino in dirs then Find(dirs[ino], name) else 0
  }

  /** The walk without a cache: the inode a sequence of names leads to, or 0. */
  ghost function Resolve(dirs: Dirs, ino: nat, names: seq<Name>): nat
    decreases |names|
  {
    if names == [] then ino
    else if Step(dirs, ino, names[0]) == 0 then 0
    else Resolve(dirs, Step(dirs, ino, names[0]), names[1..])
  }

  lemma {:induction false} ResolveAppend(dirs: Dirs, ino: nat, a: seq<Name>, b: seq<Name>)
    requires ino != 0
    ensures Resolve(dirs, ino, a + b) ==
            if Resolve(dirs, ino, a) == 0 then 0 else Resolve(dirs, Resolve(dirs, ino, a), b)
    decreases |a|
  {
    if a == [] {
      assert a + b == b;
    } else {
      assert (a + b)[1..] == a[1..] + b;
      var next := Step(dirs, ino, a[0]);
      if next != 0 {
        ResolveAppend(dirs, next, a[1..], b);
      }
    }
  }

  lemma ResolveOne(dirs: Dirs, ino: nat, a: seq<Name>, name: Name)
    requires ino != 0 && Resolve(dirs, ino, a) != 0
    ensures Resolve(dirs, ino, a + [name]) == Step(dirs, Resolve(dirs, ino, a), name)
  {
    ResolveAppend(dirs, ino, a, [name]);
  }

  // ---------------------------------------------------------------- the cache

  const ROOT: Ref := 1

  /** The parent of each entry, its ring of children, and the names on the way to it. */
  datatype Shape = Shape(up: map<Ref, Ref>, rings: map<Ref, seq<Ref>>, paths: map<Ref, seq<Name>>)

  ghost predicate RingOf(m: Mem, rings: map<Ref, seq<Ref>>, e: Ref) {
    e in m && e in rings && Ring(m, m[e].childs, rings[e])
  }

  /** Every entry has one ring of children. */
  ghost predicate AllRings(m: Mem, rings: map<Ref, seq<Ref>>) {
    rings.Keys == m.Keys && ROOT in m && NULL !in m && forall e {:trigger RingOf(m, rings, e)} :: e in m ==> RingOf(m, rings, e)
  }

  /** Each entry but the root is in the ring of its parent, and in no other. */
  ghost predicate OneRing(nodes: set<Ref>, up: map<Ref, Ref>, rings: map<Ref, seq<Ref>>) {
    && rings.Keys == nodes && up.Keys == nodes
    && (forall k {:trigger up[k]} :: k in nodes && k != ROOT ==> up[k] in nodes && k in rings[up[k]])
    && (forall e, k {:trigger k in rings[e]} :: e in nodes && k in rings[e] ==> k in nodes && k != ROOT && up[k] == e)
  }

  ghost predicate Linked(m: Mem, up: map<Ref, Ref>, rings: map<Ref, seq<Ref>>) {
    AllRings(m, rings) && OneRing(m.Keys, up, rings)
  }

  /** All names fit into a cache entry. */
  ghost predicate Fits(names: seq<Name>) {
    forall i :: 0 <= i < |names| ==> |names[i]| + 1 <= NAME_LEN
  }

  /** The names on the way to an entry end with its own, and all of them fit. */
  ghost predicate Named(m: Mem, up: map<Ref, Ref>, paths: map<Ref, seq<Name>>) {
    && paths.Keys == m.Keys && up.Keys == m.Keys && ROOT in m && paths[ROOT] == []
    && (forall k {:trigger up[k]} :: k in m && k != ROOT ==> up[k] in m && paths[k] == paths[up[k]] + [m[k].name])
    && (forall k {:trigger paths[k]} :: k in m ==> Fits(paths[k]))
    && (forall k {:trigger m[k].inode} :: k in m ==> m[k].inode != 0)
  }

  /** Each entry has the inode that the walk without a cache finds under its names. */
  ghost predicate Truthful(m: Mem, paths: map<Ref, seq<Name>>, dirs: Dirs)
    requires paths.Keys == m.Keys
  {
    forall k {:trigger m[k].inode} :: k in m ==> m[k].inode == Resolve(dirs, ROOT_INODE, paths[k])
  }

  /** No entry is gone or has another inode or name. */
  ghost predicate Keeps(m: Mem, m': Mem) {
    forall k {:trigger m'[k]} :: k in m ==> k in m' && m'[k].inode == m[k].inode && m'[k].name == m[k].name
  }

  /** The same entries with the same children, of which other ones may come first. */
  ghost predicate SameCache(m: Mem, s: Shape, m': Mem, s': Shape) {
    && m'.Keys == m.Keys && Keeps(m, m') && s'.paths == s.paths && s'.up == s.up && s'.rings.Keys == s.rings.Keys
    && (forall q, k :: q in s.rings ==> (k in s'.rings[q] <==> k in s.rings[q]))
  }

  /** Rotating a ring moves only the parent's link to it. */
  lemma Turned(m: Mem, up: map<Ref, Ref>, rings: map<Ref, seq<Ref>>, e: Ref, i: nat)
    requires Linked(m, up, rings) && e in m && i < |rings[e]|
    ensures Linked(m[e := m[e].(childs := rings[e][i])], up, rings[e := Rotated(rings[e], i)])
  {
    var m', rings' := m[e := m[e].(childs := rings[e][i])], rings[e := Rotated(rings[e], i)];
    assert RingOf(m, rings, e);
    RotatedRing(m, m[e].childs, rings[e], i);
    forall f | f in m'
      ensures RingOf(m', rings', f)
    {
      assert RingOf(m, rings, f);
      KeepRing(m, m', m'[f].childs, rings'[f]);
    }
    TurnedOnce(m.Keys, up, rings, e, i);
  }

  lemma TurnedOnce(nodes: set<Ref>, up: map<Ref, Ref>, rings: map<Ref, seq<Ref>>, e: Ref, i: nat)
    requires OneRing(nodes, up, rings) && e in nodes && i < |rings[e]|
    requires forall x :: x in Rotated(rings[e], i) <==> x in rings[e]
    ensures OneRing(nodes, up, rings[e := Rotated(rings[e], i)])
  {
  }

  /** What linking the new entry `n` in below `e` does to memory. */
  ghost predicate Spliced(m: Mem, m': Mem, e: Ref, n: Ref) {
    && e in m && n !in m && m'.Keys == m.Keys + {n}
    && var first := m[e].childs;
       && m'[n].childs == NULL && m'[e].childs == n
       && (if first == NULL then m'[n].siblings == n
           else first in m && m'[n].siblings == m[first].siblings && m'[first].siblings == n)
       && (forall x {:trigger m'[x]} :: x in m ==>
             && (x != e ==> m'[x].childs == m[x].childs) && (x != first ==> m'[x].siblings == m[x].siblings)
             && m'[x].inode == m[x].inode && m'[x].name == m[x].name)
  }

  /** A new entry in the ring of its parent. */
  lemma Joined(m: Mem, m': Mem, up: map<Ref, Ref>, rings: map<Ref, seq<Ref>>, e: Ref, n: Ref)
    requires Linked(m, up, rings) && Spliced(m, m', e, n) && n != NULL && n != ROOT
    ensures Linked(m', up[n := e], rings[n := []][e := With(rings[e], n)])
  {
    var rings' := rings[n := []][e := With(rings[e], n)];
    JoinedRing(m, m', up, rings, e, n);
    forall f | f in m'
      ensures RingOf(m', rings', f)
    {
      if f != e && f != n {
        OthersRing(m, m', up, rings, e, n, f);
      }
    }
    JoinedOnce(m.Keys, up, rings, e, n);
  }

  lemma JoinedOnce(nodes: set<Ref>, up: map<Ref, Ref>, rings: map<Ref, seq<Ref>>, e: Ref, n: Ref)
    requires OneRing(nodes, up, rings) && e in nodes && n !in nodes && n != ROOT
    requires forall x :: x in With(rings[e], n) <==> x in rings[e] || x == n
    ensures OneRing(nodes + {n}, up[n := e], rings[n := []][e := With(rings[e], n)])
  {
  }

  lemma JoinedRing(m: Mem, m': Mem, up: map<Ref, Ref>, rings: map<Ref, seq<Ref>>, e: Ref, n: Ref)
    requires Linked(m, up, rings) && Spliced(m, m', e, n) && n != NULL
    ensures Ring(m', n, With(rings[e], n))
    ensures forall x :: x in With(rings[e], n) <==> x in rings[e] || x == n
  {
    assert RingOf(m, rings, e);
    WithRing(m, m', m[e].childs, rings[e], n);
  }

  lemma OthersRing(m: Mem, m': Mem, up: map<Ref, Ref>, rings: map<Ref, seq<Ref>>, e: Ref, n: Ref, f: Ref)
    requires Linked(m, up, rings) && Spliced(m, m', e, n) && f in m && f != e
    ensures Ring(m', m'[f].childs, rings[f])
  {
    assert RingOf(m, rings, f);
    OtherRing(m, up, rings, e, f);
    KeepRing(m, m', m[f].childs, rings[f]);
  }

  /** The first child of `e` is not in the ring of another entry. */
  lemma OtherRing(m: Mem, up: map<Ref, Ref>, rings: map<Ref, seq<Ref>>, e: Ref, f: Ref)
    requires Linked(m, up, rings) && e in m && f in m && e != f
    ensures m[e].childs !in rings[f]
  {
    assert RingOf(m, rings, e) && RingOf(m, rings, f);
    if rings[e] != [] {
      assert rings[e][0] in rings[e];
    }
  }

  class Cache {
    var m: Mem
    const dirs: Dirs
    ghost var shape: Shape

    ghost predicate Valid()
      reads this
    {
      Good(m, shape)
    }

    /** What the cache says is what a walk without it would find. */
    ghost predicate TellsTruth()
      requires Valid()
      reads this
    {
      Truthful(m, shape.paths, dirs)
    }

    constructor (dirs: Dirs)
      ensures Valid() && TellsTruth() && this.dirs == dirs
      ensures m.Keys == {ROOT} && m[ROOT].inode == ROOT_INODE
    {
      this.dirs := dirs;
      m := map[ROOT := Entry(NULL, NULL, ROOT_INODE, [])];
      shape := Shape(map[ROOT := ROOT], map[ROOT := []], map[ROOT := []]);
    }

    /** The names on the way to an entry; NULL stands for the root. */
    ghost function PathOf(e: Ref): seq<Name>
      requires Valid() && (e == NULL || e in m)
      reads this
    {
      shape.paths[if e == NULL then ROOT else e]
    }

    /** The children of an entry; NULL stands for the root. */
    ghost function KidsOf(e: Ref): seq<Ref>
      requires Valid() && (e == NULL || e in m)
      reads this
    {
      shape.rings[if e == NULL then ROOT else e]
    }

    /** The inode of an entry; NULL stands for the root. */
    function InodeOf(e: Ref): (ino: nat)
      requires Valid() && (e == NULL || e in m)
      reads this
      ensures ino != 0 && (TellsTruth() ==> ino == Resolve(dirs, ROOT_INODE, PathOf(e)))
    {
      if e != NULL then m[e].inode else m[ROOT].inode
    }

    /**
     Inserts an entry below a parent (NULL for the root) and makes it the first of its ring.  A name
     that does not fit is not inserted.  The cache tells the truth afterwards exactly when it did
     before and the new entry does.
     */
    method Insert(parent: Ref, name: Name, ino: nat) returns (e: Ref)
      requires Valid() && (parent == NULL || parent in m) && ino != 0
      modifies this
      ensures Valid() && (e == NULL <==> |name| + 1 > NAME_LEN)
      ensures e == NULL ==> m == old(m) && shape == old(shape)
      ensures e != NULL ==>
                && e !in old(m) && m.Keys == old(m).Keys + {e} && Keeps(old(m), m) && m[e].inode == ino
                && shape == Grown(old(shape), if parent == NULL then ROOT else parent, e, name)
                && PathOf(e) == old(PathOf(parent)) + [name]
                && (TellsTruth() <==> old(TellsTruth()) && ino == Resolve(dirs, ROOT_INODE, PathOf(e)))
    {
      if |name| + 1 > NAME_LEN {
        return NULL;
      }
      e := Attach(if parent == NULL then ROOT else parent, name, ino);
    }

    /** Inserts an entry below the entry `p`. */
    method Attach(p: Ref, name: Name, ino: nat) returns (e: Ref)
      requires Valid() && p in m && ino != 0 && |name| + 1 <= NAME_LEN
      modifies this
      ensures Valid() && Entered(old(m), old(shape), m, shape, dirs, p, e, name, ino)
    {
      var m';
      ghost var s';
      e, m', s' := NewEntry(m, shape, dirs, p, name, ino);
      m, shape := m', s';
    }

    /**
     Looks a name up among the children of an entry (NULL for the root).  A child found becomes the
     first of the ring; the ring keeps its members.
     */
    method Lookup(parent: Ref, name: Name) returns (e: Ref)
      requires Valid() && (parent == NULL || parent in m)
      modifies this
      ensures Valid() && SameCache(old(m), old(shape), m, shape)
      ensures TellsTruth() <==> old(TellsTruth())
      ensures e != NULL ==> e in m && PathOf(e) == old(PathOf(parent)) + [name]
      ensures e != NULL ==> var p := if parent == NULL then ROOT else parent; p in m && m[p].childs == e
      ensures e == NULL ==> m == old(m) && shape == old(shape)
      ensures e == NULL <==> forall k :: k in old(KidsOf(parent)) && k in old(m) ==> old(m)[k].name != name
    {
      var p := if parent == NULL then ROOT else parent;
      ghost var ring := shape.rings[p];
      FirstChild(m, shape.up, shape.rings, p);
      if m[p].childs == NULL {
        return NULL;
      }
      ghost var i;
      e, i := Scan(m, m[p].childs, name, ring);
      if e != NULL {
        Rotate(m, shape, dirs, p, i);
        m := m[p := m[p].(childs := e)];
        shape := WithTurned(shape, p, i);
      }
    }
  }

  /** The shape with a new entry `e` below `p`. */
  ghost function Grown(s: Shape, p: Ref, e: Ref, name: Name): Shape
    requires p in s.rings && p in s.paths
  {
    Shape(s.up[e := p], s.rings[e := []][p := With(s.rings[p], e)], s.paths[e := s.paths[p] + [name]])
  }

  lemma FirstChild(m: Mem, up: map<Ref, Ref>, rings: map<Ref, seq<Ref>>, p: Ref)
    requires Linked(m, up, rings) && p in m
    ensures Ring(m, m[p].childs, rings[p])
    ensures m[p].childs == NULL <==> rings[p] == []
    ensures m[p].childs != NULL ==> m[p].childs in m
  {
    assert RingOf(m, rings, p);
  }

  /** The child at position `i` of a ring has its name at the end of its path. */
  lemma FoundPath(m: Mem, up: map<Ref, Ref>, rings: map<Ref, seq<Ref>>, paths: map<Ref, seq<Name>>, p: Ref, i: nat)
    requires Linked(m, up, rings) && Named(m, up, paths) && p in m && i < |rings[p]|
    ensures rings[p][i] in m && paths[rings[p][i]] == paths[p] + [m[rings[p][i]].name] && rings[p][i] != NULL
  {
    assert RingOf(m, rings, p);
    assert rings[p][i] in rings[p];
  }

  ghost predicate Good(m: Mem, s: Shape) {
    Linked(m, s.up, s.rings) && Named(m, s.up, s.paths)
  }

  lemma Attached(m: Mem, m': Mem, s: Shape, dirs: Dirs, p: Ref, e: Ref, name: Name, ino: nat)
    requires Good(m, s) && Spliced(m, m', p, e) && e != NULL && m'[e].inode == ino && m'[e].name == name
    requires ino != 0 && |name| + 1 <= NAME_LEN
    ensures Good(m', Grown(s, p, e, name)) && Keeps(m, m')
    ensures Truthful(m', Grown(s, p, e, name).paths, dirs) <==>
            Truthful(m, s.paths, dirs) && ino == Resolve(dirs, ROOT_INODE, s.paths[p] + [name])
  {
    Joined(m, m', s.up, s.rings, p, e);
    Told(m, m', s.up, s.paths, p, e, name, ino);
    TruthMore(m, m', s.up, s.paths, dirs, p, e, name, ino);
  }

  /** The shape with the child at position `i` as the first one of `p`. */
  ghost function WithTurned(s: Shape, p: Ref, i: nat): Shape
    requires p in s.rings && i < |s.rings[p]|
  {
    s.(rings := s.rings[p := Rotated(s.rings[p], i)])
  }

  /** Making another child the first one changes nothing that the cache says. */
  lemma Rotate(m: Mem, s: Shape, dirs: Dirs, p: Ref, i: nat)
    requires Good(m, s) && p in m && i < |s.rings[p]|
    ensures var e := s.rings[p][i];
            var m', s' := m[p := m[p].(childs := e)], WithTurned(s, p, i);
            && Good(m', s') && SameCache(m, s, m', s') && (Truthful(m', s'.paths, dirs) <==> Truthful(m, s.paths, dirs))
            && e in m && e != NULL && s.paths[e] == s.paths[p] + [m[e].name]
  {
    var e := s.rings[p][i];
    var m' := m[p := m[p].(childs := e)];
    Turned(m, s.up, s.rings, p, i);
    FoundPath(m, s.up, s.rings, s.paths, p, i);
    assert RingOf(m, s.rings, p);
    RotatedRing(m, m[p].childs, s.rings[p], i);
    SameTruth(m, m', s.up, s.paths, dirs);
  }

  lemma SameTruth(m: Mem, m': Mem, up: map<Ref, Ref>, paths: map<Ref, seq<Name>>, dirs: Dirs)
    requires m'.Keys == m.Keys && Keeps(m, m') && Named(m, up, paths)
    ensures Named(m', up, paths)
    ensures Truthful(m', paths, dirs) <==> Truthful(m, paths, dirs)
  {
    forall k | k in m
      ensures m[k].inode == m'[k].inode
    {
    }
    if Truthful(m', paths, dirs) {
      forall k | k in m
        ensures m[k].inode == Resolve(dirs, ROOT_INODE, paths[k])
      {
        assert m'[k].inode == Resolve(dirs, ROOT_INODE, paths[k]);
      }
    }
  }

  /** The new entry is named as it should be, and so are the others. */
  lemma Told(m: Mem, m': Mem, up: map<Ref, Ref>, paths: map<Ref, seq<Name>>, p: Ref, e: Ref, name: Name, ino: nat)
    requires Named(m, up, paths) && Spliced(m, m', p, e) && m'[e].inode == ino && m'[e].name == name && e != ROOT
    requires ino != 0 && |name| + 1 <= NAME_LEN
    ensures Named(m', up[e := p], paths[e := paths[p] + [name]]) && Keeps(m, m')
  {
    var up', paths' := up[e := p], paths[e := paths[p] + [name]];
    ToldFits(m, m', up, paths, p, e, name, ino);
    forall k | k in m' && k != ROOT
      ensures up'[k] in m' && paths'[k] == paths'[up'[k]] + [m'[k].name]
    {
      assert k != e ==> up[k] in m && m'[k].name == m[k].name;
    }
  }

  lemma ToldFits(m: Mem, m': Mem, up: map<Ref, Ref>, paths: map<Ref, seq<Name>>, p: Ref, e: Ref, name: Name, ino: nat)
    requires Named(m, up, paths) && Spliced(m, m', p, e) && m'[e].inode == ino
    requires ino != 0 && |name| + 1 <= NAME_LEN
    ensures var paths' := paths[e := paths[p] + [name]];
            forall k :: k in m' ==> Fits(paths'[k]) && m'[k].inode != 0
  {
    var paths' := paths[e := paths[p] + [name]];
    assert Fits(paths[p] + [name]);
    forall k | k in m'
      ensures Fits(paths'[k]) && m'[k].inode != 0
    {
      assert k != e ==> Fits(paths[k]) && m[k].inode != 0;
    }
  }

  lemma TruthMore(m: Mem, m': Mem, up: map<Ref, Ref>, paths: map<Ref, seq<Name>>, dirs: Dirs, p: Ref, e: Ref, name: Name, ino: nat)
    requires Named(m, up, paths) && Spliced(m, m', p, e) && m'[e].inode == ino
    ensures paths[e := paths[p] + [name]].Keys == m'.Keys
    ensures Truthful(m', paths[e := paths[p] + [name]], dirs) <==>
            Truthful(m, paths, dirs) && ino == Resolve(dirs, ROOT_INODE, paths[p] + [name])
  {
    var paths' := paths[e := paths[p] + [name]];
    if Truthful(m', paths', dirs) {
      assert m'[e].inode == Resolve(dirs, ROOT_INODE, paths'[e]);
      forall k | k in m
        ensures m[k].inode == Resolve(dirs, ROOT_INODE, paths[k])
      {
        assert m'[k].inode == Resolve(dirs, ROOT_INODE, paths'[k]);
      }
    }
  }

  /** The new entry `e` below `p`, and nothing else is new; the cache tells the truth if it did and the entry does. */
  ghost predicate Entered(m: Mem, s: Shape, m': Mem, s': Shape, dirs: Dirs, p: Ref, e: Ref, name: Name, ino: nat) {
    && p in s.rings && p in s.paths && s.paths.Keys == m.Keys && s'.paths.Keys == m'.Keys
    && e != NULL && e !in m && m'.Keys == m.Keys + {e} && Keeps(m, m') && m'[e].inode == ino
    && s' == Grown(s, p, e, name)
    && (Truthful(m', s'.paths, dirs) <==> Truthful(m, s.paths, dirs) && ino == Resolve(dirs, ROOT_INODE, s'.paths[e]))
  }

  /** Memory with a new entry below `p`. */
  method NewEntry(m: Mem, ghost s: Shape, ghost dirs: Dirs, p: Ref, name: Name, ino: nat)
    returns (e: Ref, m': Mem, ghost s': Shape)
    requires Good(m, s) && p in m && ino != 0 && |name| + 1 <= NAME_LEN
    ensures Good(m', s') && Entered(m, s, m', s', dirs, p, e, name, ino)
  {
    e := Malloc(m.Keys);
    FirstChild(m, s.up, s.rings, p);
    m' := LinkIn(m, p, e, ino, name);
    Attached(m, m', s, dirs, p, e, name, ino);
    s' := Grown(s, p, e, name);
  }

  /** Links a new entry in after the first child of `p` and makes it the first. */
  method LinkIn(m: Mem, p: Ref, e: Ref, ino: nat, name: Name) returns (m': Mem)
    requires p in m && e !in m && e != NULL && (m[p].childs != NULL ==> m[p].childs in m)
    ensures Spliced(m, m', p, e) && m'[e].inode == ino && m'[e].name == name
  {
    if m[p].childs == NULL {
      m' := m[e := Entry(NULL, e, ino, name)];
    } else {
      var first := m[p].childs;
      m' := m[e := Entry(NULL, m[first].siblings, ino, name)];
      m' := m'[first := m'[first].(siblings := e)];
    }
    m' := m'[p := m'[p].(childs := e)];
  }

  /** Goes around a ring to find a name. */
  method Scan(m: Mem, first: Ref, name: Name, ghost ring: seq<Ref>) returns (e: Ref, ghost i: nat)
    requires Ring(m, first, ring) && ring != []
    ensures e == NULL <==> forall k :: k in ring ==> m[k].name != name
    ensures e != NULL ==> i < |ring| && e == ring[i] && e in m && m[e].name == name
  {
    var iter := first;
    i := 0;
    while true
      invariant i < |ring| && iter == ring[i] && iter in m
      invariant forall j :: 0 <= j < i ==> m[ring[j]].name != name
      decreases |ring| - i
    {
      if m[iter].name == name {
        assert ring[i] in ring;
        return iter, i;
      }
      assert m[iter].siblings == Succ(ring, i);
      iter := m[iter].siblings;
      if iter == first {
        return NULL, i;
      }
      i := i + 1;
    }
  }
}
