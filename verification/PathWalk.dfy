/** Resolving paths to inodes, with the directory-entry cache in front of the directories. */
module PathWalk {
  import opened Dcache

  // ---------------------------------------------------------------- names in a path

  function TokenLen(path: seq<char>): (n: nat)
    ensures n <= |path| && (n < |path| ==> path[n] == '/')
    ensures forall i :: 0 <= i < n ==> path[i] != '/'
  {
    if path == [] || path[0] == '/' then 0 else 1 + TokenLen(path[1..])
  }

  /** The names in a path: what stands between slashes. */
  function Tokens(path: seq<char>): seq<Name>
    decreases |path|
  {
    if path == [] then []
    else if path[0] == '/' then Tokens(path[1..])
    else
      var n := TokenLen(path);
      [path[..n]] + Tokens(path[n..])
  }

  /** Cut at a slash, a path holds the names of its parts. */
  lemma {:induction false} TokensSplit(a: seq<char>, b: seq<char>)
    requires a == [] || b == [] || a[|a| - 1] == '/' || b[0] == '/'
    ensures Tokens(a + b) == Tokens(a) + Tokens(b)
    decreases |a|
  {
    if a == [] {
      assert a + b == b;
    } else if a[0] == '/' {
      TokensSplit(a[1..], b);
      assert (a + b)[1..] == a[1..] + b;
    } else {
      var n := TokenLen(a);
      TokensSplit(a[n..], b);
      CutAt(a, n, b);
      TokensJoin(a[..n], a[n..] + b);
    }
  }

  lemma CutAt(a: seq<char>, n: nat, b: seq<char>)
    requires n <= |a| && (n < |a| ==> a[n] == '/') && (n == |a| ==> b == [] || b[0] == '/')
    ensures a[..n] + (a[n..] + b) == a + b && (a[n..] + b == [] || (a[n..] + b)[0] == '/')
  {
  }

  /** Without slashes it is one name. */
  lemma TokensOne(name: seq<char>)
    requires name != [] && forall k :: 0 <= k < |name| ==> name[k] != '/'
    ensures Tokens(name) == [name]
  {
    TokensJoin(name, []);
    assert name + [] == name;
  }

  /** Slashes alone hold no name. */
  lemma {:induction false} OnlySlashes(path: seq<char>)
    requires forall k :: 0 <= k < |path| ==> path[k] == '/'
    ensures Tokens(path) == []
  {
    if path != [] {
      OnlySlashes(path[1..]);
    }
  }

  /* The longest name that a directory can hold; the length of a token is kept in 8 bits. */
  const NAME_MAX: nat := 255

  ghost predicate Short(names: seq<Name>) {
    forall i :: 0 <= i < |names| ==> |names[i]| <= NAME_MAX
  }

  method GetTokenLen(path: seq<char>) returns (n: nat)
    requires TokenLen(path) <= NAME_MAX
    ensures n == TokenLen(path)
  {
    n := 0;
    assert path[0..] == path;
    while n < |path| && path[n] != '/'
      invariant n <= |path| && TokenLen(path) == n + TokenLen(path[n..])
    {
      assert path[n..][1..] == path[n + 1..];
      n := n + 1;
    }
  }

  lemma FirstToken(path: seq<char>)
    requires Short(Tokens(path))
    ensures TokenLen(path) <= NAME_MAX
    ensures TokenLen(path) > 0 ==> Tokens(path) == [path[..TokenLen(path)]] + Tokens(path[TokenLen(path)..])
    ensures TokenLen(path) > 0 ==> Short(Tokens(path[TokenLen(path)..]))
  {
    var n := TokenLen(path);
    if n > 0 {
      assert Tokens(path)[0] == path[..n];
      assert Tokens(path)[1..] == Tokens(path[n..]);
    }
  }

  method SkipSlashes(path: seq<char>) returns (rest: seq<char>)
    ensures Tokens(rest) == Tokens(path) && |rest| <= |path| && (rest != [] ==> rest[0] != '/')
  {
    rest := path;
    while rest != [] && rest[0] == '/'
      invariant Tokens(rest) == Tokens(path) && |rest| <= |path|
      decreases |rest|
    {
      rest := rest[1..];
    }
  }

  // ---------------------------------------------------------------- the cached part of a path

  ghost predicate DoubleSlash(path: seq<char>) {
    exists i :: 0 <= i < |path| - 1 && path[i] == '/' && path[i + 1] == '/'
  }

  /**
   Follows the path through the cache as far as it goes: to the end of the path, to an entry that has
   no child of the next name, or to a second slash in a row.
   */
  method GetCached(cache: Cache, path: seq<char>) returns (e: Ref, rest: seq<char>)
    requires cache.Valid() && Short(Tokens(path))
    modifies cache
    ensures cache.Valid() && (e == NULL || e in old(cache.m))
    ensures SameCache(old(cache.m), old(cache.shape), cache.m, cache.shape)
    ensures old(cache.PathOf(e)) + Tokens(rest) == Tokens(path) && Short(Tokens(rest))
    ensures rest != [] && rest[0] == '/' ==> DoubleSlash(path)
    ensures rest != [] && rest[0] != '/' ==> NoneNamed(old(cache.m), old(cache.KidsOf(e)), Tokens(rest)[0])
  {
    e, rest := NULL, path;
    ghost var m0, s0 := cache.m, cache.shape;
    assert [] + Tokens(path) == Tokens(path) && path[0..] == path;
    var going := true;
    while going
      invariant cache.Valid() && (e == NULL || e in m0) && SameCache(m0, s0, cache.m, cache.shape)
      invariant Left(path, rest, s0.paths[if e == NULL then ROOT else e])
      invariant !going ==> Stuck(m0, s0, path, e, rest)
      decreases going, |rest|
    {
      going, e, rest := CachedTurn(cache, path, e, rest, m0, s0);
    }
  }

  /** The walk through the cache cannot go on from the entry. */
  ghost predicate Stuck(m: Mem, s: Shape, path: seq<char>, e: Ref, rest: seq<char>)
    requires (if e == NULL then ROOT else e) in s.rings
  {
    && (rest != [] && rest[0] == '/' ==> DoubleSlash(path))
    && (rest != [] && rest[0] != '/' ==> Tokens(rest) != [] && NoneNamed(m, s.rings[if e == NULL then ROOT else e], Tokens(rest)[0]))
  }

  /** One name of the walk through the cache. */
  method CachedTurn(cache: Cache, path: seq<char>, e: Ref, rest: seq<char>, ghost m0: Mem, ghost s0: Shape)
    returns (going: bool, e': Ref, rest': seq<char>)
    requires cache.Valid() && (e == NULL || e in m0) && Good(m0, s0) && SameCache(m0, s0, cache.m, cache.shape)
    requires Left(path, rest, s0.paths[if e == NULL then ROOT else e])
    modifies cache
    ensures cache.Valid() && (e' == NULL || e' in m0) && SameCache(m0, s0, cache.m, cache.shape)
    ensures Left(path, rest', s0.paths[if e' == NULL then ROOT else e'])
    ensures if going then |rest'| < |rest| else Stuck(m0, s0, path, e', rest')
  {
    var n;
    e' := e;
    rest', n := NextName(path, rest, s0.paths[if e == NULL then ROOT else e]);
    going := n > 0;
    if going {
      var next := CachedStep(cache, e, rest'[..n], m0, s0);
      going := next != NULL;
      if going {
        e', rest' := next, rest'[n..];
      }
    }
  }

  /** Steps over one slash and finds the length of the name that follows; 0 at the end or at another slash. */
  method NextName(path: seq<char>, rest: seq<char>, ghost done: seq<Name>) returns (rest': seq<char>, n: nat)
    requires Left(path, rest, done)
    ensures Left(path, rest', done) && |rest'| <= |rest| && n <= |rest'|
    ensures n > 0 ==>
              && Left(path, rest'[n..], done + [rest'[..n]])
              && rest'[0] != '/' && Tokens(rest') != [] && Tokens(rest')[0] == rest'[..n]
    ensures n == 0 && rest' != [] ==> rest'[0] == '/' && DoubleSlash(path)
  {
    rest' := SkipOne(path, rest);
    FirstToken(rest');
    n := GetTokenLen(rest');
    if n > 0 {
      OneMore(done, rest', n);
    }
  }

  /** `rest` is the end of the path, and the names before it are `done`. */
  ghost predicate Left(path: seq<char>, rest: seq<char>, done: seq<Name>) {
    && |rest| <= |path| && rest == path[|path| - |rest|..]
    && Short(Tokens(rest)) && done + Tokens(rest) == Tokens(path)
  }

  /** No child has the name. */
  ghost predicate NoneNamed(m: Mem, kids: seq<Ref>, name: Name) {
    forall k :: k in kids ==> k in m && m[k].name != name
  }

  /** Follows one name; the cache was `m0` and `s0` at the beginning. */
  method CachedStep(cache: Cache, e: Ref, name: Name, ghost m0: Mem, ghost s0: Shape) returns (next: Ref)
    requires cache.Valid() && (e == NULL || e in cache.m) && Good(m0, s0) && SameCache(m0, s0, cache.m, cache.shape)
    modifies cache
    ensures cache.Valid() && SameCache(m0, s0, cache.m, cache.shape)
    ensures next != NULL ==> next in m0 && s0.paths[next] == s0.paths[if e == NULL then ROOT else e] + [name]
    ensures next == NULL ==> NoneNamed(m0, s0.rings[if e == NULL then ROOT else e], name)
  {
    ghost var m, s := cache.m, cache.shape;
    next := cache.Lookup(e, name);
    SameTwice(m0, s0, m, s, cache.m, cache.shape);
    if next == NULL {
      NoChild(m0, s0, m, s, if e == NULL then ROOT else e, name);
    }
  }

  lemma SameTwice(m0: Mem, s0: Shape, m: Mem, s: Shape, m': Mem, s': Shape)
    requires SameCache(m0, s0, m, s) && SameCache(m, s, m', s')
    ensures SameCache(m0, s0, m', s')
  {
    forall k | k in m0
      ensures k in m' && m'[k].inode == m0[k].inode && m'[k].name == m0[k].name
    {
      assert m[k].inode == m0[k].inode;
    }
  }

  /** Steps over one slash. */
  method SkipOne(path: seq<char>, rest: seq<char>) returns (rest': seq<char>)
    requires |rest| <= |path| && rest == path[|path| - |rest|..]
    ensures Tokens(rest') == Tokens(rest) && |rest'| <= |rest| && rest' == path[|path| - |rest'|..]
    ensures rest' != [] && rest'[0] == '/' ==> DoubleSlash(path)
  {
    rest' := rest;
    if rest != [] && rest[0] == '/' {
      rest' := rest[1..];
      if rest' != [] && rest'[0] == '/' {
        var i := |path| - |rest|;
        assert path[i] == rest[0] && path[i + 1] == rest[1];
      }
    }
  }

  /** A name that no child has, seen from the entries at the beginning. */
  lemma NoChild(m0: Mem, s0: Shape, m: Mem, s: Shape, p: Ref, name: Name)
    requires SameCache(m0, s0, m, s) && Good(m, s) && p in m && p in s0.rings
    requires forall k :: k in s.rings[p] && k in m ==> m[k].name != name
    ensures NoneNamed(m0, s0.rings[p], name)
  {
    forall k | k in s0.rings[p]
      ensures k in m0 && m0[k].name != name
    {
      assert k in s.rings[p];
      assert k in m;
    }
  }

  lemma OneMore(done: seq<Name>, rest: seq<char>, n: nat)
    requires 0 < n == TokenLen(rest)
    ensures done + Tokens(rest) == (done + [rest[..n]]) + Tokens(rest[n..])
  {
    assert Tokens(rest) == [rest[..n]] + Tokens(rest[n..]);
  }

  // ---------------------------------------------------------------- what a walk leaves in the cache

  /** An entry by the names that lead to it, and its inode. */
  datatype Hung = Hung(path: seq<Name>, inode: nat)

  /**
   The entries that a walk from the inode `ino` inserts, if the entry it stands at has the names `at`.
   A name that does not fit is not inserted, and the walk goes on from the root of the cache.
   */
  ghost function Hangs(dirs: Dirs, at: seq<Name>, ino: nat, names: seq<Name>): seq<Hung>
    decreases |names|
  {
    if names == [] || Step(dirs, ino, names[0]) == 0 then []
    else
      var next := Step(dirs, ino, names[0]);
      if |names[0]| + 1 > NAME_LEN then Hangs(dirs, [], next, names[1..])
      else [Hung(at + [names[0]], next)] + Hangs(dirs, at + [names[0]], next, names[1..])
  }

  /** The entries have the inodes that a walk without the cache finds under their names. */
  ghost predicate AllTrue(dirs: Dirs, hs: seq<Hung>) {
    forall h :: h in hs ==> h.inode == Resolve(dirs, ROOT_INODE, h.path)
  }

  /** Every name inserted after one that does not fit leads to the same inode from the root. */
  ghost predicate Harmless(dirs: Dirs, names: seq<Name>) {
    AllTrue(dirs, Hangs(dirs, [], ROOT_INODE, names))
  }

  /** Names that fit and lead somewhere hang where they belong, so it only matters what comes after them. */
  lemma {:induction false} FitsFirst(dirs: Dirs, at: seq<Name>, a: seq<Name>, b: seq<Name>)
    requires Fits(a) && Resolve(dirs, ROOT_INODE, at) != 0 && Resolve(dirs, ROOT_INODE, at + a) != 0
    ensures AllTrue(dirs, Hangs(dirs, at, Resolve(dirs, ROOT_INODE, at), a + b)) <==>
            AllTrue(dirs, Hangs(dirs, at + a, Resolve(dirs, ROOT_INODE, at + a), b))
    decreases |a|
  {
    if a == [] {
      assert at + a == at && a + b == b;
    } else {
      var next := Resolve(dirs, ROOT_INODE, at + [a[0]]);
      ResolveOne(dirs, ROOT_INODE, at, a[0]);
      assert at + [a[0]] + a[1..] == at + a;
      ResolveAppend(dirs, ROOT_INODE, at + [a[0]], a[1..]);
      FitsFirst(dirs, at + [a[0]], a[1..], b);
      assert (a + b)[0] == a[0] && (a + b)[1..] == a[1..] + b;
      OneTrue(dirs, Hung(at + [a[0]], next), Hangs(dirs, at + [a[0]], next, a[1..] + b));
    }
  }

  lemma FitsFromRoot(dirs: Dirs, a: seq<Name>, b: seq<Name>)
    requires Fits(a) && Resolve(dirs, ROOT_INODE, a) != 0
    ensures Harmless(dirs, a + b) <==> AllTrue(dirs, Hangs(dirs, a, Resolve(dirs, ROOT_INODE, a), b))
  {
    assert [] + a == a;
    FitsFirst(dirs, [], a, b);
  }

  lemma OneTrue(dirs: Dirs, h: Hung, hs: seq<Hung>)
    ensures AllTrue(dirs, [h] + hs) <==> h.inode == Resolve(dirs, ROOT_INODE, h.path) && AllTrue(dirs, hs)
  {
    assert h in [h] + hs;
    forall x | x in hs
      ensures x in [h] + hs
    {
    }
  }

  /** A walk along names that fit inserts one entry for each, on its path and with the inode it leads to. */
  lemma {:induction false} FitsHung(dirs: Dirs, at: seq<Name>, ino: nat, names: seq<Name>, i: nat)
    requires Fits(names) && ino != 0 && Resolve(dirs, ino, names) != 0
    ensures |Hangs(dirs, at, ino, names)| == |names|
    ensures i < |names| ==> Hangs(dirs, at, ino, names)[i] == Hung(at + names[..i + 1], Resolve(dirs, ino, names[..i + 1]))
    decreases |names|
  {
    if names != [] {
      var next := Step(dirs, ino, names[0]);
      FitsHung(dirs, at + [names[0]], next, names[1..], if i == 0 then 0 else i - 1);
      if i == 0 {
        assert names[..1] == [names[0]] && names[..1][1..] == [];
      } else if i < |names| {
        assert names[..i + 1][1..] == names[1..][..i] && names[..i + 1][0] == names[0];
        assert at + names[..i + 1] == at + [names[0]] + names[1..][..i];
      }
    }
  }

  /** Names that all fit do no harm. */
  lemma FitsHarmless(dirs: Dirs, names: seq<Name>)
    requires Fits(names) && Resolve(dirs, ROOT_INODE, names) != 0
    ensures Harmless(dirs, names)
  {
    FitsFromRoot(dirs, names, []);
    assert names + [] == names;
  }

  /**
   A path through a name that does not fit and then one that does is harmless exactly when the root
   has that last name for the same inode.
   */
  lemma LostParent(dirs: Dirs, a: seq<Name>, long: Name, name: Name)
    requires Fits(a) && |long| + 1 > NAME_LEN && |name| + 1 <= NAME_LEN
    requires Resolve(dirs, ROOT_INODE, a + [long] + [name]) != 0
    ensures Harmless(dirs, a + [long] + [name]) <==>
            Step(dirs, ROOT_INODE, name) == Resolve(dirs, ROOT_INODE, a + [long] + [name])
  {
    ResolveAppend(dirs, ROOT_INODE, a + [long], [name]);
    ResolveAppend(dirs, ROOT_INODE, a, [long]);
    assert a + [long] + [name] == a + [long, name];
    FitsFromRoot(dirs, a, [long, name]);
    LongThen(dirs, a, Resolve(dirs, ROOT_INODE, a), long, name);
    ResolveOne(dirs, ROOT_INODE, a, long);
    ResolveOne(dirs, ROOT_INODE, a + [long], name);
    ResolveOne(dirs, ROOT_INODE, [], name);
    assert [] + [name] == [name];
    OneTrue(dirs, Hung([name], Resolve(dirs, ROOT_INODE, a + [long] + [name])), []);
    assert [Hung([name], Resolve(dirs, ROOT_INODE, a + [long] + [name]))] + [] == [Hung([name], Resolve(dirs, ROOT_INODE, a + [long] + [name]))];
  }

  lemma LongThen(dirs: Dirs, at: seq<Name>, ino: nat, long: Name, name: Name)
    requires |long| + 1 > NAME_LEN && |name| + 1 <= NAME_LEN
    requires Step(dirs, ino, long) != 0 && Step(dirs, Step(dirs, ino, long), name) != 0
    ensures Hangs(dirs, at, ino, [long, name]) == [Hung([name], Step(dirs, Step(dirs, ino, long), name))]
  {
    assert [long, name][1..] == [name] && [name][1..] == [];
    assert [] + [name] == [name];
    assert Hangs(dirs, [name], Step(dirs, Step(dirs, ino, long), name), []) == [];
  }

  /** The cache kept its entries, and the new ones are those of `hs`. */
  ghost predicate Gained(m: Mem, paths: map<Ref, seq<Name>>, m': Mem, paths': map<Ref, seq<Name>>, hs: seq<Hung>) {
    && paths.Keys == m.Keys && paths'.Keys == m'.Keys
    && Keeps(m, m') && (forall k :: k in m ==> k in m' && paths'[k] == paths[k])
    && (forall k {:trigger m'[k].inode} :: k in m' && k !in m ==> Hung(paths'[k], m'[k].inode) in hs)
    && (forall h {:trigger h in hs} :: h in hs ==> exists k :: k in m' && k !in m && Hung(paths'[k], m'[k].inode) == h)
  }

  lemma GainedOne(m: Mem, paths: map<Ref, seq<Name>>, m1: Mem, paths1: map<Ref, seq<Name>>, m': Mem, paths': map<Ref, seq<Name>>,
                hs: seq<Hung>, e: Ref)
    requires Gained(m, paths, m1, paths1, hs) && e !in m1 && m'.Keys == m1.Keys + {e} && Keeps(m1, m')
    requires paths'.Keys == m'.Keys && paths' == paths1[e := paths'[e]]
    ensures Gained(m, paths, m', paths', hs + [Hung(paths'[e], m'[e].inode)])
  {
    var hs' := hs + [Hung(paths'[e], m'[e].inode)];
    assert forall h :: h in hs' <==> h in hs || h == Hung(paths'[e], m'[e].inode);
    forall k | k in m' && k !in m
      ensures Hung(paths'[k], m'[k].inode) in hs'
    {
      assert k != e ==> Hung(paths1[k], m1[k].inode) in hs && m'[k].inode == m1[k].inode;
    }
    forall h | h in hs'
      ensures exists k :: k in m' && k !in m && Hung(paths'[k], m'[k].inode) == h
    {
      GainedFrom(m, paths, m1, paths1, m', paths', hs, e, h);
    }
  }

  lemma GainedFrom(m: Mem, paths: map<Ref, seq<Name>>, m1: Mem, paths1: map<Ref, seq<Name>>, m': Mem, paths': map<Ref, seq<Name>>,
                   hs: seq<Hung>, e: Ref, h: Hung)
    requires Gained(m, paths, m1, paths1, hs) && e !in m1 && m'.Keys == m1.Keys + {e} && Keeps(m1, m')
    requires paths'.Keys == m'.Keys && paths' == paths1[e := paths'[e]] && (h in hs || h == Hung(paths'[e], m'[e].inode))
    ensures exists k :: k in m' && k !in m && Hung(paths'[k], m'[k].inode) == h
  {
    if h in hs {
      var k :| k in m1 && k !in m && Hung(paths1[k], m1[k].inode) == h;
      assert k in m' && Hung(paths'[k], m'[k].inode) == h;
    } else {
      assert e in m' && e !in m;
    }
  }

  /** The cache tells the truth after a walk exactly when it did before and the new entries do. */
  lemma GainedTruth(m: Mem, paths: map<Ref, seq<Name>>, m': Mem, paths': map<Ref, seq<Name>>, hs: seq<Hung>, dirs: Dirs)
    requires Gained(m, paths, m', paths', hs)
    ensures Truthful(m', paths', dirs) <==> Truthful(m, paths, dirs) && AllTrue(dirs, hs)
  {
    if Truthful(m', paths', dirs) {
      forall k | k in m
        ensures m[k].inode == Resolve(dirs, ROOT_INODE, paths[k])
      {
        assert m'[k].inode == Resolve(dirs, ROOT_INODE, paths'[k]);
      }
      forall h | h in hs
        ensures h.inode == Resolve(dirs, ROOT_INODE, h.path)
      {
        var k :| k in m' && k !in m && Hung(paths'[k], m'[k].inode) == h;
      }
    }
    if Truthful(m, paths, dirs) && AllTrue(dirs, hs) {
      forall k | k in m'
        ensures m'[k].inode == Resolve(dirs, ROOT_INODE, paths'[k])
      {
        if k in m {
          assert m[k].inode == Resolve(dirs, ROOT_INODE, paths[k]);
        } else {
          assert Hung(paths'[k], m'[k].inode) in hs;
        }
      }
    }
  }

  // ---------------------------------------------------------------- the whole walk

  /** Scans a directory for a name, passing over deleted entries. */
  method ScanDir(dents: seq<Dentry>, name: Name) returns (ino: nat)
    ensures ino == Find(dents, name)
    ensures ino == 0 <==> forall i :: 0 <= i < |dents| && dents[i].name == name ==> dents[i].inode == 0
    ensures ino != 0 ==>
              exists i :: 0 <= i < |dents| && dents[i].name == name && dents[i].inode == ino
                          && forall j :: 0 <= j < i && dents[j].name == name ==> dents[j].inode == 0
  {
    FindFirst(dents, name);
    var i := 0;
    assert dents[0..] == dents;
    while i < |dents|
      invariant i <= |dents| && Find(dents, name) == Find(dents[i..], name)
    {
      assert dents[i..][1..] == dents[i + 1..];
      if dents[i].inode != 0 && |dents[i].name| == |name| && dents[i].name == name {
        return dents[i].inode;
      }
      i := i + 1;
    }
    return 0;
  }

  /**
   Walks on from an entry with the inode `ino0` through the directories.  What it finds does not depend
   on the entry, but where it inserts what it finds does.
   */
  method WalkOn(cache: Cache, e0: Ref, ino0: nat, rest0: seq<char>, ghost goal: nat, ghost all: seq<Hung>) returns (ino: nat)
    requires cache.Valid() && (e0 == NULL || e0 in cache.m) && Short(Tokens(rest0))
    requires Pending(cache.dirs, goal, all, [], cache.PathOf(e0), ino0, Tokens(rest0))
    modifies cache
    ensures cache.Valid() && ino == goal
    ensures Gained(old(cache.m), old(cache.shape.paths), cache.m, cache.shape.paths, all)
  {
    var e, rest := e0, rest0;
    ino := ino0;
    ghost var dirs, m0, paths0 := cache.dirs, cache.m, cache.shape.paths;
    ghost var hs: seq<Hung> := [];
    while true
      invariant cache.Valid() && cache.dirs == dirs && (e == NULL || e in cache.m) && Short(Tokens(rest))
      invariant Pending(dirs, goal, all, hs, cache.PathOf(e), ino, Tokens(rest))
      invariant Gained(m0, paths0, cache.m, cache.shape.paths, hs)
      decreases |rest|
    {
      var n;
      rest, n := NextToken(rest);
      PendingEnd(dirs, goal, all, hs, cache.PathOf(e), ino, Tokens(rest));
      if n == 0 {
        return;
      }
      var next := LookIn(cache.dirs, ino, rest[..n]);
      if next == 0 {
        return 0;
      }
      e, hs := InsertStep(cache, e, rest[..n], next, m0, paths0, goal, all, hs, ino, Tokens(rest));
      ino, rest := next, rest[n..];
      if rest == [] {
        PendingEnd(dirs, goal, all, hs, cache.PathOf(e), ino, []);
        return;
      }
    }
  }

  /** Skips slashes and finds the length of the name that follows, 0 at the end of the path. */
  method NextToken(rest: seq<char>) returns (rest': seq<char>, n: nat)
    requires Short(Tokens(rest))
    ensures Tokens(rest') == Tokens(rest) && |rest'| <= |rest| && n <= |rest'|
    ensures if n == 0 then Tokens(rest') == []
            else Tokens(rest') == [rest'[..n]] + Tokens(rest'[n..]) && Short(Tokens(rest'[n..]))
  {
    rest' := SkipSlashes(rest);
    FirstToken(rest');
    n := GetTokenLen(rest');
  }

  /** The inode of a name in a directory, or 0; other inodes have no entries. */
  method LookIn(dirs: Dirs, ino: nat, name: Name) returns (next: nat)
    ensures next == Step(dirs, ino, name)
    ensures next == 0 <==> ino !in dirs || forall i :: 0 <= i < |dirs[ino]| && dirs[ino][i].name == name ==> dirs[ino][i].inode == 0
    ensures next != 0 ==>
              ino in dirs
              && exists i :: 0 <= i < |dirs[ino]| && dirs[ino][i].name == name && dirs[ino][i].inode == next
                             && forall j :: 0 <= j < i && dirs[ino][j].name == name ==> dirs[ino][j].inode == 0
  {
    next := 0;
    if ino in dirs {
      next := ScanDir(dirs[ino], name);
    }
  }

  /** What is left to do of a walk with the answer `goal` that inserts `all`, of which `hs` is done. */
  ghost predicate Pending(dirs: Dirs, goal: nat, all: seq<Hung>, hs: seq<Hung>, at: seq<Name>, ino: nat, names: seq<Name>) {
    ino != 0 && Resolve(dirs, ino, names) == goal && all == hs + Hangs(dirs, at, ino, names)
  }

  lemma PendingEnd(dirs: Dirs, goal: nat, all: seq<Hung>, hs: seq<Hung>, at: seq<Name>, ino: nat, names: seq<Name>)
    requires Pending(dirs, goal, all, hs, at, ino, names)
    ensures names == [] ==> goal == ino && all == hs
    ensures names != [] && Step(dirs, ino, names[0]) == 0 ==> goal == 0 && all == hs
  {
  }

  lemma PendingStep(dirs: Dirs, goal: nat, all: seq<Hung>, hs: seq<Hung>, hs': seq<Hung>, at: seq<Name>, at': seq<Name>,
                    ino: nat, names: seq<Name>)
    requires Pending(dirs, goal, all, hs, at, ino, names) && names != [] && Step(dirs, ino, names[0]) != 0
    requires if |names[0]| + 1 > NAME_LEN then at' == [] && hs' == hs
             else at' == at + [names[0]] && hs' == hs + [Hung(at', Step(dirs, ino, names[0]))]
    ensures Pending(dirs, goal, all, hs', at', Step(dirs, ino, names[0]), names[1..])
  {
  }

  /** Inserts the next name of the walk. */
  method InsertStep(cache: Cache, e: Ref, name: Name, next: nat, ghost m0: Mem, ghost paths0: map<Ref, seq<Name>>,
                    ghost goal: nat, ghost all: seq<Hung>, ghost hs: seq<Hung>, ghost ino: nat, ghost names: seq<Name>)
    returns (e': Ref, ghost hs': seq<Hung>)
    requires cache.Valid() && (e == NULL || e in cache.m)
    requires Gained(m0, paths0, cache.m, cache.shape.paths, hs) && Pending(cache.dirs, goal, all, hs, cache.PathOf(e), ino, names)
    requires names != [] && names[0] == name && next == Step(cache.dirs, ino, name) && next != 0
    modifies cache
    ensures cache.Valid() && (e' == NULL || e' in cache.m)
    ensures Gained(m0, paths0, cache.m, cache.shape.paths, hs') && Pending(cache.dirs, goal, all, hs', cache.PathOf(e'), next, names[1..])
  {
    ghost var m, paths, at := cache.m, cache.shape.paths, cache.PathOf(e);
    e' := cache.Insert(e, name, next);
    hs' := hs;
    if e' != NULL {
      GainedOne(m0, paths0, m, paths, cache.m, cache.shape.paths, hs, e');
      hs' := hs + [Hung(cache.PathOf(e'), next)];
    }
    PendingStep(cache.dirs, goal, all, hs, hs', at, cache.PathOf(e'), ino, names);
  }

  /**
   The inode of a path.  The walk goes through the cache down to the entry `e` and from there, for the
   `rest` of the path, through the directories.  If the cache told the truth, the answer is that of a walk
   without it; and it still tells the truth exactly when the path is harmless.
   */
  method GetIdxByPath(cache: Cache, path: seq<char>) returns (ino: nat, ghost e: Ref, ghost rest: seq<char>)
    requires cache.Valid() && Short(Tokens(path))
    modifies cache
    ensures cache.Valid()
    ensures old(cache.TellsTruth()) ==> ino == Resolve(cache.dirs, ROOT_INODE, Tokens(path))
    ensures cache.TellsTruth() <==> old(cache.TellsTruth()) && Harmless(cache.dirs, Tokens(path))
    ensures (e == NULL || e in old(cache.m)) && old(cache.PathOf(e)) + Tokens(rest) == Tokens(path)
    ensures rest != [] && rest[0] == '/' ==> DoubleSlash(path)
    ensures rest != [] && rest[0] != '/' ==> NoneNamed(old(cache.m), old(cache.KidsOf(e)), Tokens(rest)[0])
    ensures ino == Resolve(cache.dirs, old(cache.InodeOf(e)), Tokens(rest))
    ensures Gained(old(cache.m), old(cache.shape.paths), cache.m, cache.shape.paths,
                 Hangs(cache.dirs, old(cache.PathOf(e)), old(cache.InodeOf(e)), Tokens(rest)))
  {
    ghost var m0, paths0 := cache.m, cache.shape.paths;
    var e1, rest1 := GetCached(cache, path);
    e, rest := e1, rest1;
    ghost var m1 := cache.m;
    var ino1 := cache.InodeOf(e1);
    ghost var hs := Hangs(cache.dirs, cache.PathOf(e1), ino1, Tokens(rest));
    ino := WalkOn(cache, e1, ino1, rest1, Resolve(cache.dirs, ino1, Tokens(rest)), hs);
    GainedBefore(m0, paths0, m1, cache.m, cache.shape.paths, hs);
    GainedTruth(m0, paths0, cache.m, cache.shape.paths, hs, cache.dirs);
    WalkTruth(m0, paths0, cache.dirs, if e == NULL then ROOT else e, Tokens(rest));
  }

  /** The cached part of the walk changes no entry. */
  lemma GainedBefore(m0: Mem, paths: map<Ref, seq<Name>>, m: Mem, m': Mem, paths': map<Ref, seq<Name>>, hs: seq<Hung>)
    requires m.Keys == m0.Keys && Keeps(m0, m) && Gained(m, paths, m', paths', hs)
    ensures Gained(m0, paths, m', paths', hs)
  {
  }

  /** From a truthful cache the walk is the walk without one. */
  lemma WalkTruth(m: Mem, paths: map<Ref, seq<Name>>, dirs: Dirs, p: Ref, names: seq<Name>)
    requires p in m && paths.Keys == m.Keys && Fits(paths[p]) && m[p].inode != 0
    ensures Truthful(m, paths, dirs) ==>
              && Resolve(dirs, m[p].inode, names) == Resolve(dirs, ROOT_INODE, paths[p] + names)
              && (AllTrue(dirs, Hangs(dirs, paths[p], m[p].inode, names)) <==> Harmless(dirs, paths[p] + names))
  {
    if Truthful(m, paths, dirs) {
      assert m[p].inode == Resolve(dirs, ROOT_INODE, paths[p]);
      ResolveAppend(dirs, ROOT_INODE, paths[p], names);
      FitsFromRoot(dirs, paths[p], names);
    }
  }

  // ---------------------------------------------------------------- sequences of lookups

  /** Every answer up to the first harmful path is that of a walk without a cache. */
  ghost predicate AllWalked(dirs: Dirs, paths: seq<seq<char>>, inos: seq<nat>)
    requires |inos| <= |paths|
  {
    forall i :: 0 <= i < |inos| && AllHarmless(dirs, paths, i) ==> inos[i] == Resolve(dirs, ROOT_INODE, Tokens(paths[i]))
  }

  ghost predicate AllHarmless(dirs: Dirs, paths: seq<seq<char>>, n: nat)
    requires n <= |paths|
  {
    forall j :: 0 <= j < n ==> Harmless(dirs, Tokens(paths[j]))
  }

  /**
   Any sequence of lookups gives the answers of walks without a cache as long as the paths before were
   harmless, and the cache tells the truth at the end exactly when all of them were.
   */
  method LookupAll(cache: Cache, paths: seq<seq<char>>) returns (inos: seq<nat>)
    requires cache.Valid() && cache.TellsTruth() && forall i :: 0 <= i < |paths| ==> Short(Tokens(paths[i]))
    modifies cache
    ensures cache.Valid() && |inos| == |paths| && AllWalked(cache.dirs, paths, inos)
    ensures cache.TellsTruth() <==> AllHarmless(cache.dirs, paths, |paths|)
  {
    inos := [];
    ghost var dirs := cache.dirs;
    for i := 0 to |paths|
      invariant cache.Valid() && cache.dirs == dirs && |inos| == i && AllWalked(dirs, paths, inos)
      invariant cache.TellsTruth() <==> AllHarmless(dirs, paths, i)
    {
      var ino, _, _ := GetIdxByPath(cache, paths[i]);
      WalkedMore(dirs, paths, inos, ino);
      inos := inos + [ino];
    }
  }

  lemma WalkedMore(dirs: Dirs, paths: seq<seq<char>>, inos: seq<nat>, ino: nat)
    requires |inos| < |paths| && AllWalked(dirs, paths, inos)
    requires AllHarmless(dirs, paths, |inos|) ==> ino == Resolve(dirs, ROOT_INODE, Tokens(paths[|inos|]))
    ensures AllWalked(dirs, paths, inos + [ino])
    ensures AllHarmless(dirs, paths, |inos| + 1) <==> AllHarmless(dirs, paths, |inos|) && Harmless(dirs, Tokens(paths[|inos|]))
  {
  }

  // ---------------------------------------------------------------- a lookup that goes wrong

  /** A path that begins with a name. */
  lemma {:induction false} TokensJoin(name: Name, rest: seq<char>)
    requires name != [] && (forall i :: 0 <= i < |name| ==> name[i] != '/') && (rest == [] || rest[0] == '/')
    ensures TokenLen(name + rest) == |name| && Tokens(name + rest) == [name] + Tokens(rest)
  {
    TokenLenJoin(name, rest);
    assert (name + rest)[0] == name[0] && (name + rest)[..|name|] == name && (name + rest)[|name|..] == rest;
  }

  lemma {:induction false} TokenLenJoin(name: Name, rest: seq<char>)
    requires (forall i :: 0 <= i < |name| ==> name[i] != '/') && (rest == [] || rest[0] == '/')
    ensures TokenLen(name + rest) == |name|
  {
    if name != [] {
      assert (name + rest)[1..] == name[1..] + rest;
      TokenLenJoin(name[1..], rest);
    }
  }

  /** A directory 10 with a name that does not fit, which has `x` as inode 11; the root has `x` as inode 12. */
  function LongDirs(long: Name): Dirs {
    map[ROOT_INODE := [Dentry(10, long), Dentry(12, "x")], 10 := [Dentry(11, "x")]]
  }

  lemma TokensX()
    ensures Tokens("/x") == ["x"] && !DoubleSlash("/x")
  {
    TokensJoin("x", []);
    assert "x" + [] == "x";
    assert "/x"[1..] == "x";
  }

  lemma LongPaths(long: Name)
    requires |long| == NAME_LEN && forall i :: 0 <= i < |long| ==> long[i] != '/'
    ensures Tokens("/" + long + "/x") == [long, "x"] && Tokens("/x") == ["x"] && !DoubleSlash("/x")
  {
    TokensX();
    TokensJoin(long, "/x");
    Reassociate("/", long, "/x");
    SlashFirst(long + "/x");
    assert [long] + ["x"] == [long, "x"];
  }

  lemma Reassociate(a: seq<char>, b: seq<char>, c: seq<char>)
    ensures a + b + c == a + (b + c)
  {
  }

  lemma SlashFirst(path: seq<char>)
    ensures Tokens("/" + path) == Tokens(path)
  {
    assert ("/" + path)[1..] == path;
  }

  lemma FindSecond(a: Dentry, b: Dentry)
    requires |a.name| != |b.name| && b.inode != 0
    ensures Find([a, b], b.name) == b.inode
  {
    assert [a, b][1..] == [b];
  }

  lemma LongWalk(long: Name)
    requires |long| == NAME_LEN
    ensures var dirs := LongDirs(long);
            && Resolve(dirs, ROOT_INODE, ["x"]) == 12 && Resolve(dirs, ROOT_INODE, [long, "x"]) == 11
            && Hangs(dirs, [], ROOT_INODE, [long, "x"]) == [Hung(["x"], 11)]
  {
    var dirs := LongDirs(long);
    assert Step(dirs, ROOT_INODE, long) == 10 && Step(dirs, 10, "x") == 11;
    FindSecond(Dentry(10, long), Dentry(12, "x"));
    assert Step(dirs, ROOT_INODE, "x") == 12;
    ResolveOne(dirs, ROOT_INODE, [], "x");
    ResolveOne(dirs, ROOT_INODE, [], long);
    ResolveOne(dirs, ROOT_INODE, [long], "x");
    assert [] + ["x"] == ["x"] && [] + [long] == [long] && [long] + ["x"] == [long, "x"];
    LongThen(dirs, [], ROOT_INODE, long, "x");
  }

  /**
   The first lookup goes through a name that does not fit and answers right; after it the second one,
   of `x` in the root, answers with the inode of the other `x`.
   */
  method SecondAnswerWrong(long: Name) returns (first: nat, second: nat)
    requires |long| == NAME_LEN && forall i :: 0 <= i < |long| ==> long[i] != '/'
    ensures first == 11 == Resolve(LongDirs(long), ROOT_INODE, Tokens("/" + long + "/x"))
    ensures second == 11 && Resolve(LongDirs(long), ROOT_INODE, Tokens("/x")) == 12
  {
    LongPaths(long);
    LongWalk(long);
    var cache := new Cache(LongDirs(long));
    first := FirstLookup(cache, "/" + long + "/x");
    second := LookupX(cache);
  }

  method FirstLookup(cache: Cache, path: seq<char>) returns (first: nat)
    requires cache.Valid() && cache.TellsTruth() && cache.m.Keys == {ROOT} && Short(Tokens(path))
    requires Hangs(cache.dirs, [], ROOT_INODE, Tokens(path)) == [Hung(["x"], 11)]
    modifies cache
    ensures cache.Valid() && first == Resolve(cache.dirs, ROOT_INODE, Tokens(path)) && OneX(cache.m, cache.shape)
  {
    ghost var m0, s0, e, rest := cache.m, cache.shape, NULL, [];
    assert m0[ROOT].inode == Resolve(cache.dirs, ROOT_INODE, s0.paths[ROOT]);
    first, e, rest := GetIdxByPath(cache, path);
    AfterFirst(m0, s0, cache.m, cache.shape, cache.dirs, if e == NULL then ROOT else e, Tokens(rest), Tokens(path));
  }

  method LookupX(cache: Cache) returns (second: nat)
    requires cache.Valid() && OneX(cache.m, cache.shape)
    modifies cache
    ensures second == 11
  {
    TokensX();
    ghost var m0, s0, e, rest := cache.m, cache.shape, NULL, [];
    second, e, rest := GetIdxByPath(cache, "/x");
    XFound(m0, s0, if e == NULL then ROOT else e, Tokens(rest));
  }

  /** All entries but the root are for `x` with inode 11, and one of them is below the root. */
  ghost predicate OneX(m: Mem, s: Shape) {
    && s.paths.Keys == m.Keys && ROOT in s.rings
    && (forall k :: k in m && k != ROOT ==> s.paths[k] == ["x"] && m[k].inode == 11)
    && (exists k :: k in s.rings[ROOT] && k in m && m[k].name == "x")
  }

  lemma AfterFirst(m0: Mem, s0: Shape, m: Mem, s: Shape, dirs: Dirs, p: Ref, rest: seq<Name>, names: seq<Name>)
    requires Good(m0, s0) && m0.Keys == {ROOT} && m0[ROOT].inode == ROOT_INODE && p in m0 && s0.paths[p] + rest == names
    requires Hangs(dirs, [], ROOT_INODE, names) == [Hung(["x"], 11)] && Good(m, s)
    requires Gained(m0, s0.paths, m, s.paths, Hangs(dirs, s0.paths[p], m0[p].inode, rest))
    ensures OneX(m, s)
  {
    assert [] + rest == rest;
    OnlyX(m0, s0.paths, m, s);
  }

  lemma XFound(m: Mem, s: Shape, p: Ref, rest: seq<Name>)
    requires Good(m, s) && OneX(m, s) && p in m && s.paths[p] + rest == ["x"]
    requires rest != [] ==> NoneNamed(m, s.rings[p], rest[0])
    ensures rest == [] && m[p].inode == 11
  {
    assert |s.paths[p] + rest| == |s.paths[p]| + |rest|;
    assert s.paths[p] == [] ==> [] + rest == rest;
  }

  /** All entries but the root are below it, for `x` with inode 11, and there is one. */
  lemma OnlyX(m0: Mem, paths0: map<Ref, seq<Name>>, m: Mem, s: Shape)
    requires m0.Keys == {ROOT} && Gained(m0, paths0, m, s.paths, [Hung(["x"], 11)]) && Good(m, s)
    ensures OneX(m, s)
  {
    var h := Hung(["x"], 11);
    AllX(m0, paths0, m, s.paths);
    assert h in [h];
    var k :| k in m && k !in m0 && Hung(s.paths[k], m[k].inode) == h;
    BelowRoot(m, s, k, "x");
  }

  lemma AllX(m0: Mem, paths0: map<Ref, seq<Name>>, m: Mem, paths: map<Ref, seq<Name>>)
    requires m0.Keys == {ROOT} && Gained(m0, paths0, m, paths, [Hung(["x"], 11)])
    ensures forall k :: k in m && k != ROOT ==> paths[k] == ["x"] && m[k].inode == 11
  {
    forall k | k in m && k != ROOT
      ensures paths[k] == ["x"] && m[k].inode == 11
    {
      assert Hung(paths[k], m[k].inode) in [Hung(["x"], 11)];
    }
  }

  lemma BelowRoot(m: Mem, s: Shape, k: Ref, name: Name)
    requires Good(m, s) && k in m && k != ROOT && s.paths[k] == [name]
    requires forall j :: j in m && j != ROOT ==> s.paths[j] == [name]
    ensures k in s.rings[ROOT] && m[k].name == name
  {
    var p := s.up[k];
    assert s.paths[k] == s.paths[p] + [m[k].name];
    assert |s.paths[k]| == |s.paths[p]| + 1;
    assert p == ROOT;
    assert s.paths[k][0] == m[k].name;
  }
}
