/** Inserting a node into a red-black tree. */
module RbInsert {
  import opened RbShape
  import opened RbRotate

  // ---------------------------------------------------------------- repairing the colours

  /** A red-black tree except that the red node `z` may have a red parent; `h` is the black height below. */
  ghost predicate RedAt(c: Ctx, t: Tree, z: Ref, h: nat) {
    && t.T? && t.id == z && t.red && Balanced(t, h) && NoRedRed(t)
    && CtxBalanced(c, h) && CtxNoRedRed(c, false) && CtxTopBlack(c)
  }

  /** How many levels the repair may still climb. */
  ghost function Climb(c: Ctx): nat {
    if c.In? && c.red then CtxLen(c) else 0
  }

  /** A red parent has a black parent of its own. */
  lemma GrandparentBlack(c: Ctx, t: Tree, z: Ref, h: nat)
    requires RedAt(c, t, z, h) && c.In? && c.red
    ensures c.up.In? && !c.up.red && !IsRed(c.sib)
  {
    CtxColours(c, h, false);
    if c.up.In? {
      CtxColours(c.up, h, true);
    }
  }

  /** Parent and uncle red: their blackness moves down from the grandparent, which is red now. */
  lemma PushRedUp(c: Ctx, t: Tree, z: Ref, h: nat)
    requires RedAt(c, t, z, h) && c.In? && c.red && c.up.In? && !c.up.red && IsRed(c.up.sib)
    ensures RedAt(c.up.up, Mk(c.up.side, Mk(c.side, t, c.id, false, c.sib), c.up.id, true, c.up.sib.(red := false)), c.up.id, h + 1)
    ensures CtxLen(c.up.up) < CtxLen(c)
  {
    CtxColours(c, h, false);
    CtxColours(c.up, h, true);
    var pt, ut := Mk(c.side, t, c.id, false, c.sib), c.up.sib.(red := false);
    KidColours(c.up.sib, Left, h);
    KidColours(ut, Left, h + 1);
    MkColours(c.side, t, c.id, false, c.sib, h + 1);
    MkColours(c.up.side, pt, c.up.id, true, ut, h + 1);
  }

  /** Uncle black and `z` on the inner side: a rotation brings the parent to the outer side. */
  lemma TurnInner(c: Ctx, t: Tree, z: Ref, h: nat)
    requires RedAt(c, t, z, h) && c.In? && c.red && c.up.In? && c.side != c.up.side
    ensures var x := Rotated(Mk(c.side, t, c.id, true, c.sib), c.up.side);
            var gs := c.up.side;
            && x == Mk(gs, Kid(x, gs), z, true, Kid(x, gs.Other()))
            && Kid(x, gs).T? && Kid(x, gs).id == c.id
            && RedAt(In(c.up, z, true, gs, Kid(x, gs.Other())), Kid(x, gs), c.id, h)
  {
    var gs := c.up.side;
    var pt := Mk(c.side, t, c.id, true, c.sib);
    var x := Rotated(pt, gs);
    CtxColours(c, h, false);
    KidColours(t, gs, h);
    KidColours(pt, gs, h);
    KidColours(x, gs, h);
    MkColours(gs, c.sib, c.id, true, Kid(t, gs), h);
    CtxColours(In(c.up, z, true, gs, Kid(x, gs.Other())), h, false);
  }

  /** Uncle black and `z` on the outer side: a rotation at the grandparent ends the repair. */
  lemma TurnOuter(c: Ctx, t: Tree, z: Ref, h: nat)
    requires RedAt(c, t, z, h) && c.In? && c.red && c.up.In? && c.side == c.up.side && !IsRed(c.up.sib) && !c.up.red
    ensures var g := Mk(c.side, Mk(c.side, t, c.id, false, c.sib), c.up.id, true, c.up.sib);
            var rest := Mk(c.side, c.sib, c.up.id, true, c.up.sib);
            && Rotated(g, c.side.Other()) == Mk(c.side, t, c.id, false, rest)
            && RedAt(In(c.up.up, c.id, false, c.side, rest), t, z, h)
  {
    var rest := Mk(c.side, c.sib, c.up.id, true, c.up.sib);
    CtxColours(c, h, false);
    CtxColours(c.up, h, true);
    MkColours(c.side, c.sib, c.up.id, true, c.up.sib, h);
    CtxColours(In(c.up.up, c.id, false, c.side, rest), h, false);
  }

  method PushUp(r: RbRoot, z: Ref, parent: Ref, gparent: Ref, uncle: Ref, ghost c: Ctx, ghost t: Tree, ghost h: nat)
    returns (ghost c': Ctx, ghost t': Tree)
    requires InMem(r.m, r.node, Plug(c, t)) && RedAt(c, t, z, h) && c.In? && c.red && c.up.In? && !c.up.red && IsRed(c.up.sib)
    requires parent == c.id && gparent == c.up.id && uncle == c.up.sib.id
    modifies r`m
    ensures InMem(r.m, r.node, Plug(c', t')) && RedAt(c', t', gparent, h + 1) && CtxLen(c') < CtxLen(c)
    ensures Alike(old(r.m), r.m, Plug(c, t), Plug(c', t'))
  {
    ghost var side, up2, pt := c.up.side, c.up.up, Mk(c.side, t, c.id, true, c.sib);
    ghost var pt', ut' := pt.(red := false), c.up.sib.(red := false);
    FromBelow(up2, gparent, false, side, pt, c.up.sib);
    FromBelow(up2, gparent, false, side, pt, ut');
    FromBelow(up2, gparent, false, side, pt', ut');
    r.SetColour(uncle, false, In(up2, gparent, false, side.Other(), pt), c.up.sib);
    r.SetColour(parent, false, In(up2, gparent, false, side, ut'), pt);
    r.SetColour(gparent, true, up2, Mk(side, pt', gparent, false, ut'));
    c', t' := up2, Mk(side, pt', gparent, true, ut');
    PushRedUp(c, t, z, h);
  }

  /** Brings `z` to the outer side of its parent; the former parent takes its place. */
  method ToOuterSide(r: RbRoot, z: Ref, parent: Ref, side: Side, ghost c: Ctx, ghost t: Tree, ghost h: nat)
    returns (ghost c': Ctx, ghost t': Tree)
    requires InMem(r.m, r.node, Plug(c, t)) && RedAt(c, t, z, h) && c.In? && c.red && c.up.In? && c.side != c.up.side
    requires parent == c.id && side == c.up.side
    modifies r`m, r`node
    ensures InMem(r.m, r.node, Plug(c', t')) && RedAt(c', t', parent, h)
    ensures c'.In? && c'.id == z && c'.red && c'.up == c.up && c'.side == c.up.side
    ensures Alike(old(r.m), r.m, Plug(c, t), Plug(c', t'))
  {
    ghost var pt := Mk(c.side, t, c.id, true, c.sib);
    ghost var x := Rotated(pt, side);
    r.Rotate(parent, side, c.up, pt);
    TurnInner(c, t, z, h);
    c', t' := In(c.up, z, true, side, Kid(x, side.Other())), Kid(x, side);
    FromBelow(c.up, z, true, side, t', c'.sib);
  }

  /** Ends the repair by a rotation at the grandparent. */
  method RotateOut(r: RbRoot, z: Ref, parent: Ref, gparent: Ref, side: Side, ghost c: Ctx, ghost t: Tree, ghost h: nat)
    returns (ghost c': Ctx)
    requires InMem(r.m, r.node, Plug(c, t)) && RedAt(c, t, z, h) && c.In? && c.red && c.up.In? && c.side == c.up.side
    requires !IsRed(c.up.sib) && !c.up.red && parent == c.id && gparent == c.up.id && side == c.side
    modifies r`m, r`node
    ensures InMem(r.m, r.node, Plug(c', t)) && RedAt(c', t, z, h) && c'.In? && !c'.red
    ensures Alike(old(r.m), r.m, Plug(c, t), Plug(c', t))
  {
    ghost var up2, pt := c.up.up, Mk(c.side, t, c.id, true, c.sib);
    ghost var pt' := pt.(red := false);
    ghost var g := Mk(side, pt', gparent, true, c.up.sib);
    FromBelow(up2, gparent, false, side, pt', c.up.sib);
    r.SetColour(parent, false, c.up, pt);
    r.SetColour(gparent, true, up2, Mk(side, pt', gparent, false, c.up.sib));
    r.Rotate(gparent, side.Other(), up2, g);
    TurnOuter(c, t, z, h);
    c' := In(up2, parent, false, side, Mk(side, c.sib, gparent, true, c.up.sib));
    FromBelow(up2, parent, false, side, t, c'.sib);
  }

  /** One turn of the repair, at a red node with a red parent. */
  method RepairStep(r: RbRoot, z: Ref, ghost c: Ctx, ghost t: Tree, ghost h: nat)
    returns (z': Ref, ghost c': Ctx, ghost t': Tree, ghost h': nat)
    requires InMem(r.m, r.node, Plug(c, t)) && RedAt(c, t, z, h) && c.In? && c.red
    modifies r`m, r`node
    ensures InMem(r.m, r.node, Plug(c', t')) && RedAt(c', t', z', h') && Climb(c') < Climb(c)
    ensures Alike(old(r.m), r.m, Plug(c, t), Plug(c', t'))
  {
    GrandparentBlack(c, t, z, h);
    SeeUp(r.m, r.node, c, t);
    var parent := r.m[z].parent;
    var gparent := r.m[parent].parent;
    var side := if parent == r.m[gparent].left then Left else Right;
    var uncle := r.m[gparent].Child(side.Other());
    if uncle != NULL && r.m[uncle].red {
      c', t' := PushUp(r, z, parent, gparent, uncle, c, t, h);
      z', h' := gparent, h + 1;
      return;
    }
    z', c', t', h' := z, c, t, h;
    ghost var m0, t0 := r.m, Plug(c, t);
    if r.m[parent].Child(side.Other()) == z {
      c', t' := ToOuterSide(r, z, parent, side, c, t, h);
      z', parent := parent, z;
    }
    ghost var m1, t1 := r.m, Plug(c', t');
    c' := RotateOut(r, z', parent, gparent, side, c', t', h);
    AlikeTwice(m0, m1, r.m, t0, t1, Plug(c', t'));
  }

  /** What the cells of a node's parent and grandparent show. */
  lemma SeeUp(m: Mem, root: Ref, c: Ctx, t: Tree)
    requires InMem(m, root, Plug(c, t)) && t.T? && c.In? && c.up.In?
    ensures t.id in m && m[t.id].parent == c.id && c.id in m && c.id != NULL && m[c.id].parent == c.up.id && c.up.id in m
    ensures m[c.id].Child(c.side) == t.id && m[c.id].Child(c.side.Other()) != t.id
    ensures m[c.up.id].Child(c.up.side) == c.id && m[c.up.id].Child(c.up.side.Other()) == NodeOf(c.up.sib)
    ensures c.id != NodeOf(c.up.sib)
    ensures c.up.sib.T? ==> c.up.sib.id in m && c.up.sib.id != NULL && m[c.up.sib.id].red == c.up.sib.red
  {
    var pt := Mk(c.side, t, c.id, c.red, c.sib);
    var gt := Mk(c.up.side, pt, c.up.id, c.up.red, c.up.sib);
    Look(m, root, c, t);
    Look(m, root, c.up, pt);
    Look(m, root, c.up.up, gt);
    SibApart(m, root, c, t);
    SibApart(m, root, c.up, pt);
    if c.up.sib.T? {
      FromBelow(c.up.up, c.up.id, c.up.red, c.up.side, pt, c.up.sib);
      Look(m, root, In(c.up.up, c.up.id, c.up.red, c.up.side.Other(), pt), c.up.sib);
    }
  }

  /** A node is not its own sibling. */
  lemma SibApart(m: Mem, root: Ref, c: Ctx, t: Tree)
    requires InMem(m, root, Plug(c, t)) && t.T? && c.In?
    ensures t.id != NodeOf(c.sib)
  {
    Focus(m, root, c, t);
    LinksRoot(m, c.sib, m[c.id].Child(c.side.Other()), c.id);
  }

  /** Restores the colour rules after a red node was linked. */
  method InsertColor(r: RbRoot, z0: Ref, ghost c0: Ctx, ghost t0: Tree, ghost h0: nat)
    returns (ghost t': Tree, ghost hh: nat)
    requires InMem(r.m, r.node, Plug(c0, t0)) && RedAt(c0, t0, z0, h0)
    modifies r`m, r`node
    ensures InMem(r.m, r.node, t') && RedBlack(t', hh)
    ensures Alike(old(r.m), r.m, Plug(c0, t0), t')
  {
    var z := z0;
    ghost var c, t, h := c0, t0, h0;
    Look(r.m, r.node, c, t);
    SeeParent(r.m, r.node, c, t);
    while r.m[z].parent != NULL && r.m[r.m[z].parent].red
      invariant InMem(r.m, r.node, Plug(c, t)) && RedAt(c, t, z, h)
      invariant Alike(old(r.m), r.m, Plug(c0, t0), Plug(c, t))
      invariant z in r.m && r.m[z].parent == ParentOf(c)
      invariant c.In? ==> c.id in r.m && c.id != NULL && r.m[c.id].red == c.red
      decreases Climb(c)
    {
      ghost var m1, t1 := r.m, Plug(c, t);
      z, c, t, h := RepairStep(r, z, c, t, h);
      AlikeTwice(old(r.m), m1, r.m, Plug(c0, t0), t1, Plug(c, t));
      Look(r.m, r.node, c, t);
      SeeParent(r.m, r.node, c, t);
    }
    ghost var m1, t1 := r.m, Plug(c, t);
    Look(r.m, r.node, Top, Plug(c, t));
    r.SetColour(r.node, false, Top, Plug(c, t));
    t' := Plug(c, t).(red := false);
    AlikeTwice(old(r.m), m1, r.m, Plug(c0, t0), t1, t');
    hh := Blackened(c, t, z, h);
  }

  lemma SeeParent(m: Mem, root: Ref, c: Ctx, t: Tree)
    requires InMem(m, root, Plug(c, t)) && t.T?
    ensures c.In? ==> c.id in m && c.id != NULL && m[c.id].red == c.red
    ensures Plug(c, t).T?
  {
    NodesPlug(c, t);
    if c.In? {
      Look(m, root, c.up, Mk(c.side, t, c.id, c.red, c.sib));
    }
  }

  /** Without a red parent above it, the tree is red-black once its root is black. */
  lemma Blackened(c: Ctx, t: Tree, z: Ref, h: nat) returns (hh: nat)
    requires RedAt(c, t, z, h) && (c.In? ==> !c.red) && Plug(c, t).T?
    ensures RedBlack(Plug(c, t).(red := false), hh)
  {
    if c.Top? {
      hh := h + 1;
    } else {
      CtxColours(c, h, true);
      CtxColours(c, h, false);
      ColoursPlug(c, t, h);
      hh := TopHeight(c, h);
    }
  }

  // ---------------------------------------------------------------- linking a new node

  /** The sign of the difference of two block numbers, taken as a signed 64-bit number. */
  function BlockCmp(a: int, b: int): (r: int)
    ensures 0 <= a < KEY_BOUND && 0 <= b < KEY_BOUND ==> (r < 0 <==> a < b) && (r > 0 <==> a > b)
  {
    var d := (a - b) % 0x1_0000_0000_0000_0000;
    if d == 0 then 0 else if d >= KEY_BOUND then -1 else 1
  }

  /** Beyond the bound the comparison is no order: three numbers that follow each other in a circle. */
  lemma CmpIsCyclic()
    ensures exists a, b, c :: 0 <= a < b < c < 0x1_0000_0000_0000_0000 && BlockCmp(a, b) < 0 && BlockCmp(b, c) < 0 && BlockCmp(c, a) < 0
  {
    var a, b, c := 0, 0x6000_0000_0000_0000, 0xc000_0000_0000_0000;
    assert BlockCmp(a, b) < 0 && BlockCmp(b, c) < 0 && BlockCmp(c, a) < 0;
  }

  /** The hole gets a new leaf node. */
  lemma Linked(m: Mem, m': Mem, root: Ref, root': Ref, c: Ctx, z: Ref)
    requires InMem(m, root, Plug(c, Nil)) && z != NULL && z !in CtxNodes(c) && z in m
    requires m'.Keys == m.Keys && m'[z] == Cell(NULL, NULL, ParentOf(c), true)
    requires if c.Top? then root' == z else root' == root && c.id in m && m'[c.id] == m[c.id].SetChild(c.side, z)
    requires forall x :: x in m && x != z && (c.Top? || x != c.id) ==> m'[x] == m[x]
    ensures InMem(m', root', Plug(c, T(Nil, z, true, Nil)))
    ensures Touched(m, m', Nodes(Plug(c, Nil)) + {z})
  {
    var t := T(Nil, z, true, Nil);
    Focus(m, root, c, Nil);
    NodesPlug(c, Nil);
    if c.In? {
      KeepLinks(m, m', c.sib, m[c.id].Child(c.side.Other()), c.id);
      KeepCtx(m, m', c.up, c.id, m[c.id].parent, root);
      assert m'[c.id].Child(c.side.Other()) == m[c.id].Child(c.side.Other());
    }
    assert Links(m', t, z, ParentOf(c));
    assert CtxLinks(m', c, z, ParentOf(c), root');
    Focus(m', root', c, t);
  }

  /** The key `k` lies between the keys before and after the hole. */
  ghost predicate Around(key: Ref -> int, c: Ctx, k: int) {
    && (forall i :: 0 <= i < |Before(c)| ==> key(Before(c)[i]) < k)
    && (forall i :: 0 <= i < |After(c)| ==> k < key(After(c)[i]))
  }

  /** One step of the descent towards a key. */
  lemma Narrow(key: Ref -> int, c: Ctx, t: Tree, side: Side, k: int)
    requires t.T? && Sorted(key, Inorder(Plug(c, t))) && Around(key, c, k)
    requires if side == Left then k < key(t.id) else key(t.id) < k
    ensures var c' := In(c, t.id, t.red, side, Kid(t, side.Other()));
            && Plug(c', Kid(t, side)) == Plug(c, t) && Around(key, c', k)
            && (Before(c') == [] <==> side == Left && Before(c) == [])
            && (After(c') == [] <==> side == Right && After(c) == [])
  {
    InorderPlug(c, t);
    var a, l, r, d := Before(c), Inorder(t.left), Inorder(t.right), After(c);
    DescendOrder(key, a, l, t.id, r, d);
    AroundKid(key, c, t, side, k);
  }

  lemma AroundKid(key: Ref -> int, c: Ctx, t: Tree, side: Side, k: int)
    requires t.T? && Around(key, c, k)
    requires if side == Left then k < key(t.id) else key(t.id) < k
    requires forall i :: 0 <= i < |Inorder(t.left)| ==> key(Inorder(t.left)[i]) < key(t.id)
    requires forall i :: 0 <= i < |Inorder(t.right)| ==> key(t.id) < key(Inorder(t.right)[i])
    ensures Around(key, In(c, t.id, t.red, side, Kid(t, side.Other())), k)
  {
    var c' := In(c, t.id, t.red, side, Kid(t, side.Other()));
    if side == Left {
      assert Before(c') == Before(c) && After(c') == [t.id] + Inorder(t.right) + After(c);
    } else {
      assert After(c') == After(c) && Before(c') == Before(c) + Inorder(t.left) + [t.id];
    }
  }

  lemma DescendOrder(key: Ref -> int, a: seq<Ref>, l: seq<Ref>, x: Ref, r: seq<Ref>, d: seq<Ref>)
    requires Sorted(key, a + (l + [x] + r) + d)
    ensures forall i :: 0 <= i < |l| ==> key(l[i]) < key(x)
    ensures forall i :: 0 <= i < |r| ==> key(x) < key(r[i])
  {
    var s := a + (l + [x] + r) + d;
    var k := |a| + |l|;
    assert s[k] == x;
    forall i | 0 <= i < |l|
      ensures key(l[i]) < key(x)
    {
      assert s[|a| + i] == l[i];
    }
    forall i | 0 <= i < |r|
      ensures key(x) < key(r[i])
    {
      assert s[k + 1 + i] == r[i];
    }
  }

  lemma SortedWith(key: Ref -> int, c: Ctx, z: Ref)
    requires Sorted(key, Inorder(Plug(c, Nil))) && InBounds(key, Inorder(Plug(c, Nil))) && Around(key, c, key(z)) && 0 <= key(z) < KEY_BOUND
    ensures var s := Before(c) + [z] + After(c);
            Inorder(Plug(c, T(Nil, z, true, Nil))) == s && Sorted(key, s) && InBounds(key, s)
    ensures Inorder(Plug(c, Nil)) == Before(c) + After(c)
  {
    InorderPlug(c, Nil);
    InorderPlug(c, T(Nil, z, true, Nil));
    assert Inorder(Plug(c, Nil)) == Before(c) + After(c);
    SortedWithin(key, Before(c), z, After(c));
  }

  lemma SortedWithin(key: Ref -> int, a: seq<Ref>, z: Ref, d: seq<Ref>)
    requires Sorted(key, a + d) && InBounds(key, a + d) && 0 <= key(z) < KEY_BOUND
    requires forall i :: 0 <= i < |a| ==> key(a[i]) < key(z)
    requires forall i :: 0 <= i < |d| ==> key(z) < key(d[i])
    ensures Sorted(key, a + [z] + d) && InBounds(key, a + [z] + d)
  {
    var s, s' := a + d, a + [z] + d;
    forall i | 0 <= i < |s'|
      ensures 0 <= key(s'[i]) < KEY_BOUND
      ensures forall j :: i < j < |s'| ==> key(s'[i]) < key(s'[j])
    {
      if i != |a| {
        assert s'[i] == s[if i < |a| then i else i - 1];
      }
      forall j | i < j < |s'|
        ensures key(s'[i]) < key(s'[j])
      {
        if i == |a| {
          assert s'[j] == d[j - |a| - 1];
        } else if j == |a| {
          assert s'[i] == a[i];
        } else {
          assert s'[j] == s[if j < |a| then j else j - 1];
        }
      }
    }
  }

  /** A red leaf in a hole of a red-black tree. */
  lemma RedLeaf(c: Ctx, z: Ref, hh: nat)
    requires RedBlack(Plug(c, Nil), hh)
    ensures RedAt(c, T(Nil, z, true, Nil), z, 0)
  {
    var h := ColoursUnplug(c, Nil, hh);
  }

  /** Some node of the tree has the key of `z`. */
  ghost predicate HasKey(key: Ref -> int, t: Tree, k: int) {
    exists x :: x in Nodes(t) && key(x) == k
  }

  /** `s'` is `s` with `z` added at one place. */
  ghost predicate Inserted(s: seq<Ref>, s': seq<Ref>, z: Ref) {
    exists i :: 0 <= i <= |s| && s' == s[..i] + [z] + s[i..]
  }

  /** Finds the free place for a key, or the node that has it already. */
  method FindPlace(r: RbRoot, key: Ref -> int, z: Ref) returns (found: bool, parent: Ref, side: Side, leftmost: bool, rightmost: bool, ghost c: Ctx)
    requires r.Valid(key) && 0 <= key(z) < KEY_BOUND
    ensures found <==> HasKey(key, r.shape, key(z))
    ensures !found ==>
              && Plug(c, Nil) == r.shape && Around(key, c, key(z))
              && parent == ParentOf(c) && (c.In? ==> side == c.side)
              && (leftmost <==> Before(c) == []) && (rightmost <==> After(c) == [])
  {
    var new_ := r.node;
    parent, side, leftmost, rightmost, found := NULL, Left, true, true, false;
    ghost var t := r.shape;
    c := Top;
    LinksRoot(r.m, t, r.node, NULL);
    while new_ != NULL
      invariant Plug(c, t) == r.shape && Around(key, c, key(z)) && new_ == NodeOf(t)
      invariant new_ != NULL <==> t.T?
      invariant parent == ParentOf(c) && (c.In? ==> side == c.side)
      invariant leftmost <==> Before(c) == []
      invariant rightmost <==> After(c) == []
      decreases t
    {
      Look(r.m, r.node, c, t);
      KeyInBounds(key, c, t, r.height);
      var result := BlockCmp(key(z), key(new_));
      parent := new_;
      if result == 0 {
        return true, parent, side, leftmost, rightmost, c;
      }
      side := if result < 0 then Left else Right;
      if side == Left {
        rightmost := false;
      } else {
        leftmost := false;
      }
      new_ := r.m[new_].Child(side);
      Narrow(key, c, t, side, key(z));
      c, t := In(c, t.id, t.red, side, Kid(t, side.Other())), Kid(t, side);
      if t.T? {
        Look(r.m, r.node, c, t);
      }
    }
    NotThere(key, c, key(z));
  }

  lemma KeyInBounds(key: Ref -> int, c: Ctx, t: Tree, h: nat)
    requires SearchTree(key, Plug(c, t), h) && t.T?
    ensures 0 <= key(t.id) < KEY_BOUND && t.id in Nodes(Plug(c, t))
  {
    NodesPlug(c, t);
    InorderNodes(Plug(c, t));
    assert t.id in Inorder(Plug(c, t));
  }

  lemma NotThere(key: Ref -> int, c: Ctx, k: int)
    requires Around(key, c, k)
    ensures !HasKey(key, Plug(c, Nil), k)
  {
    InorderPlug(c, Nil);
    InorderNodes(Plug(c, Nil));
    forall x | x in Nodes(Plug(c, Nil))
      ensures key(x) != k
    {
      assert x in Before(c) + After(c);
    }
  }

  /** Links the node as a red leaf below `parent`, on `side`, or as the root. */
  method LinkNode(r: RbRoot, z: Ref, parent: Ref, side: Side, ghost c: Ctx)
    requires InMem(r.m, r.node, Plug(c, Nil)) && z != NULL && z in r.m && z !in Nodes(Plug(c, Nil))
    requires parent == ParentOf(c) && (c.In? ==> side == c.side)
    modifies r`m, r`node
    ensures InMem(r.m, r.node, Plug(c, T(Nil, z, true, Nil)))
    ensures Touched(old(r.m), r.m, Nodes(Plug(c, Nil)) + {z})
  {
    ghost var m0, node0 := r.m, r.node;
    Focus(r.m, r.node, c, Nil);
    NodesPlug(c, Nil);
    CtxParent(r.m, c, NULL, parent, r.node);
    r.m := r.m[z := Cell(NULL, NULL, parent, true)];
    if parent == NULL {
      r.node := z;
    } else {
      r.m := r.m[parent := r.m[parent].SetChild(side, z)];
    }
    Linked(m0, r.m, node0, r.node, c, z);
  }

  /**
   Inserts a node.  If some node has the same key, nothing changes; else the tree holds exactly one
   node more, stays a red-black search tree, and its ends stay cached.
   */
  method Insert(r: RbRoot, key: Ref -> int, z: Ref)
    requires r.Valid(key) && z != NULL && z in r.m && z !in Nodes(r.shape) && 0 <= key(z) < KEY_BOUND
    modifies r`m, r`node, r`leftmost, r`rightmost, r`shape, r`height
    ensures r.Valid(key)
    ensures HasKey(key, old(r.shape), key(z)) ==>
              r.shape == old(r.shape) && r.m == old(r.m) && r.node == old(r.node)
    ensures !HasKey(key, old(r.shape), key(z)) ==>
              && Inserted(Inorder(old(r.shape)), Inorder(r.shape), z)
              && Nodes(r.shape) == Nodes(old(r.shape)) + {z}
    ensures Touched(old(r.m), r.m, Nodes(old(r.shape)) + {z})
  {
    var found, parent, side, leftmost, rightmost;
    ghost var c;
    found, parent, side, leftmost, rightmost, c := FindPlace(r, key, z);
    if found {
      return;
    }
    if rightmost {
      r.rightmost := z;
    }
    if leftmost {
      r.leftmost := z;
    }
    ghost var t', hh := LinkAndRepair(r, key, z, parent, side, c, r.height);
    r.shape, r.height := t', hh;
  }

  /** Links the node at its free place and restores the colour rules. */
  method LinkAndRepair(r: RbRoot, ghost key: Ref -> int, z: Ref, parent: Ref, side: Side, ghost c: Ctx, ghost h: nat)
    returns (ghost t': Tree, ghost hh: nat)
    requires InMem(r.m, r.node, Plug(c, Nil)) && z != NULL && z in r.m && z !in Nodes(Plug(c, Nil))
    requires parent == ParentOf(c) && (c.In? ==> side == c.side)
    requires SearchTree(key, Plug(c, Nil), h) && Around(key, c, key(z)) && 0 <= key(z) < KEY_BOUND
    modifies r`m, r`node
    ensures InMem(r.m, r.node, t') && SearchTree(key, t', hh)
    ensures Inserted(Inorder(Plug(c, Nil)), Inorder(t'), z) && Nodes(t') == Nodes(Plug(c, Nil)) + {z}
    ensures First(Inorder(t')) == if Before(c) == [] then z else First(Inorder(Plug(c, Nil)))
    ensures Last(Inorder(t')) == if After(c) == [] then z else Last(Inorder(Plug(c, Nil)))
    ensures Touched(old(r.m), r.m, Nodes(Plug(c, Nil)) + {z})
  {
    ghost var m0 := r.m;
    LinkNode(r, z, parent, side, c);
    RedLeaf(c, z, h);
    ghost var m1 := r.m;
    t', hh := InsertColor(r, z, c, T(Nil, z, true, Nil), 0);
    InsertDone(key, c, z, t', hh, h, m0, m1, r.m);
  }

  lemma InsertDone(key: Ref -> int, c: Ctx, z: Ref, t': Tree, hh: nat, h: nat, m: Mem, m1: Mem, m': Mem)
    requires SearchTree(key, Plug(c, Nil), h) && Around(key, c, key(z)) && 0 <= key(z) < KEY_BOUND
    requires Touched(m, m1, Nodes(Plug(c, Nil)) + {z}) && Alike(m1, m', Plug(c, T(Nil, z, true, Nil)), t') && RedBlack(t', hh)
    ensures SearchTree(key, t', hh)
    ensures Inserted(Inorder(Plug(c, Nil)), Inorder(t'), z) && Nodes(t') == Nodes(Plug(c, Nil)) + {z}
    ensures First(Inorder(t')) == if Before(c) == [] then z else First(Inorder(Plug(c, Nil)))
    ensures Last(Inorder(t')) == if After(c) == [] then z else Last(Inorder(Plug(c, Nil)))
    ensures Touched(m, m', Nodes(Plug(c, Nil)) + {z})
  {
    SortedWith(key, c, z);
    Contents(c, z);
    EndsWith(Before(c), z, After(c));
    assert Touched(m1, m', Nodes(Plug(c, Nil)) + {z});
  }

  lemma EndsWith(a: seq<Ref>, z: Ref, d: seq<Ref>)
    ensures First(a + [z] + d) == if a == [] then z else First(a + d)
    ensures Last(a + [z] + d) == if d == [] then z else Last(a + d)
  {
  }

  lemma Contents(c: Ctx, z: Ref)
    requires Inorder(Plug(c, Nil)) == Before(c) + After(c)
    requires Inorder(Plug(c, T(Nil, z, true, Nil))) == Before(c) + [z] + After(c)
    ensures Inserted(Inorder(Plug(c, Nil)), Inorder(Plug(c, T(Nil, z, true, Nil))), z)
    ensures Nodes(Plug(c, T(Nil, z, true, Nil))) == Nodes(Plug(c, Nil)) + {z}
  {
    var s, i := Inorder(Plug(c, Nil)), |Before(c)|;
    assert s[..i] == Before(c) && s[i..] == After(c);
    NodesPlug(c, Nil);
    NodesPlug(c, T(Nil, z, true, Nil));
  }
}
