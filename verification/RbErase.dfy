/** Erasing a node from a red-black tree. */
module RbErase {
  import opened RbShape
  import opened RbRotate

  // ---------------------------------------------------------------- repairing the black heights

  ghost function Black(t: Tree): Tree {
    if t.Nil? then t else t.(red := false)
  }

  /**
   A red-black tree except that the part `t` is one black node short; its top may be red, even
   with a red child, since the repair ends by blackening it.
   */
  ghost predicate ShortAt(c: Ctx, t: Tree, h: nat) {
    && Balanced(t, h) && NoRedRed(Black(t))
    && CtxBalanced(c, h + 1) && CtxNoRedRed(c, false) && CtxTopBlack(c)
  }

  ghost function Climb(c: Ctx, t: Tree): nat {
    if IsRed(t) then 0 else CtxLen(c)
  }

  /** The sibling of a short part is there. */
  lemma SiblingThere(c: Ctx, t: Tree, h: nat)
    requires ShortAt(c, t, h) && c.In?
    ensures c.sib.T?
    ensures c.sib.red ==> !c.red && Kid(c.sib, c.side).T? && !IsRed(Kid(c.sib, c.side))
  {
    CtxColours(c, h + 1, false);
    KidColours(c.sib, c.side, h + 1);
  }

  /** A red sibling: after a rotation at the parent the sibling is black. */
  ghost function Raised(c: Ctx): Ctx
    requires c.In? && c.sib.T?
  {
    In(In(c.up, c.sib.id, false, c.side, Kid(c.sib, c.side.Other())), c.id, true, c.side, Kid(c.sib, c.side))
  }

  lemma RaiseSibling(c: Ctx, t: Tree, h: nat)
    requires ShortAt(c, t, h) && c.In? && c.sib.T? && c.sib.red
    ensures ShortAt(Raised(c), t, h) && Raised(c).sib.T? && !Raised(c).sib.red
    ensures var g := Mk(c.side, t, c.id, true, c.sib.(red := false));
            Plug(c.up, Rotated(g, c.side)) == Plug(Raised(c), t)
  {
    SiblingThere(c, t, h);
    CtxColours(c, h + 1, false);
    KidColours(c.sib, c.side, h + 1);
    CtxColours(Raised(c), h + 1, false);
    CtxColours(Raised(c).up, h + 1, true);
    FromBelow(Raised(c).up, c.id, true, c.side, t, Kid(c.sib, c.side));
    FromBelow(c.up, c.sib.id, false, c.side, Mk(c.side, t, c.id, true, Kid(c.sib, c.side)), Kid(c.sib, c.side.Other()));
  }

  /** A black sibling with black children turns red, and the parent becomes the short part. */
  lemma PushShortUp(c: Ctx, t: Tree, h: nat) returns (h': nat)
    requires ShortAt(c, t, h) && c.In? && c.sib.T? && !c.sib.red && !IsRed(t)
    requires !IsRed(c.sib.left) && !IsRed(c.sib.right)
    ensures ShortAt(c.up, Mk(c.side, t, c.id, c.red, c.sib.(red := true)), h')
  {
    h' := if c.red then h else h + 1;
    var s := c.sib.(red := true);
    CtxColours(c, h + 1, false);
    KidColours(c.sib, Left, h + 1);
    KidColours(s, Left, h);
    MkColours(c.side, t, c.id, c.red, s, h');
    MkColours(c.side, t, c.id, false, s, h + 1);
    CtxWeaker(c.up, c.red);
  }

  lemma CtxWeaker(c: Ctx, holeRed: bool)
    requires CtxNoRedRed(c, holeRed)
    ensures CtxNoRedRed(c, false)
  {
  }

  /** A black sibling with a red near child: after a rotation at the sibling the far child is red. */
  ghost function FarRed(s: Tree, side: Side): Tree
    requires s.T? && Kid(s, side).T?
  {
    var n := Kid(s, side);
    Mk(side, Kid(n, side), n.id, false, Mk(side, Kid(n, side.Other()), s.id, true, Kid(s, side.Other())))
  }

  lemma TurnSibling(c: Ctx, t: Tree, h: nat)
    requires ShortAt(c, t, h) && c.In? && c.sib.T? && !c.sib.red
    requires IsRed(Kid(c.sib, c.side)) && !IsRed(Kid(c.sib, c.side.Other()))
    ensures ShortAt(c.(sib := FarRed(c.sib, c.side)), t, h)
    ensures var s := FarRed(c.sib, c.side); s.T? && !s.red && IsRed(Kid(s, c.side.Other()))
    ensures var n := Kid(c.sib, c.side);
            var s1 := Mk(c.side, n.(red := false), c.sib.id, true, Kid(c.sib, c.side.Other()));
            Rotated(s1, c.side.Other()) == FarRed(c.sib, c.side)
  {
    var n, far := Kid(c.sib, c.side), Kid(c.sib, c.side.Other());
    var s := FarRed(c.sib, c.side);
    CtxColours(c, h + 1, false);
    KidColours(c.sib, c.side, h + 1);
    KidColours(n, c.side, h);
    MkColours(c.side, Kid(n, c.side.Other()), c.sib.id, true, far, h);
    KidColours(s, c.side, h + 1);
    CtxColours(c.(sib := s), h + 1, false);
  }

  /** A black sibling with a red far child: a rotation at the parent ends the repair. */
  lemma EndRepair(c: Ctx, t: Tree, h: nat) returns (hh: nat)
    requires ShortAt(c, t, h) && c.In? && c.sib.T? && !c.sib.red && !IsRed(t)
    requires IsRed(Kid(c.sib, c.side.Other()))
    ensures var g := Mk(c.side, t, c.id, false, Mk(c.side, Kid(c.sib, c.side), c.sib.id, c.red, Black(Kid(c.sib, c.side.Other()))));
            RedBlack(Plug(c.up, Rotated(g, c.side)), hh)
  {
    var b, far := Kid(c.sib, c.side), Kid(c.sib, c.side.Other());
    var p := Mk(c.side, t, c.id, false, b);
    var x := Mk(c.side, p, c.sib.id, c.red, Black(far));
    CtxColours(c, h + 1, false);
    KidColours(c.sib, c.side, h + 1);
    KidColours(far, Left, h);
    KidColours(Black(far), Left, h + 1);
    MkColours(c.side, t, c.id, false, b, h + 1);
    var g := if c.red then h + 1 else h + 2;
    MkColours(c.side, p, c.sib.id, c.red, Black(far), g);
    ColoursPlug(c.up, x, g);
    hh := TopHeight(c.up, g);
  }

  /** Blackening the top of the short part ends the repair, when that top is red or the root. */
  lemma BlackenTop(c: Ctx, t: Tree, h: nat) returns (hh: nat)
    requires ShortAt(c, t, h) && (IsRed(t) || c.Top?)
    ensures RedBlack(Plug(c, Black(t)), hh)
  {
    if IsRed(t) {
      KidColours(t, Left, h);
      KidColours(Black(t), Left, h + 1);
      ColoursPlug(c, Black(t), h + 1);
      hh := TopHeight(c, h + 1);
    } else {
      hh := h;
    }
  }

  // ---------------------------------------------------------------- the repair in memory

  /** Looking at the sibling and its children. */
  lemma SeeSibling(m: Mem, root: Ref, c: Ctx, t: Tree)
    requires InMem(m, root, Plug(c, t)) && c.In? && c.sib.T?
    ensures c.id in m && c.id != NULL && m[c.id] == (if c.side == Left then Cell(NodeOf(t), c.sib.id, ParentOf(c.up), c.red)
                                                     else Cell(c.sib.id, NodeOf(t), ParentOf(c.up), c.red))
    ensures c.sib.id in m && m[c.sib.id] == Cell(NodeOf(c.sib.left), NodeOf(c.sib.right), c.id, c.sib.red)
    ensures c.sib.left.T? ==> c.sib.left.id in m && c.sib.left.id != NULL && m[c.sib.left.id].red == c.sib.left.red
    ensures c.sib.right.T? ==> c.sib.right.id in m && c.sib.right.id != NULL && m[c.sib.right.id].red == c.sib.right.red
    ensures NodeOf(t) != c.sib.id
  {
    var sc := In(c.up, c.id, c.red, c.side.Other(), t);
    FromBelow(c.up, c.id, c.red, c.side, t, c.sib);
    Look(m, root, c.up, Mk(c.side, t, c.id, c.red, c.sib));
    Look(m, root, sc, c.sib);
    Focus(m, root, c, t);
    LinksRoot(m, t, NodeOf(t), c.id);
    if c.sib.left.T? {
      FromBelow(sc, c.sib.id, c.sib.red, Left, c.sib.left, c.sib.right);
      Look(m, root, In(sc, c.sib.id, c.sib.red, Left, c.sib.right), c.sib.left);
    }
    if c.sib.right.T? {
      FromBelow(sc, c.sib.id, c.sib.red, Left, c.sib.left, c.sib.right);
      Look(m, root, In(sc, c.sib.id, c.sib.red, Right, c.sib.left), c.sib.right);
    }
  }

  /** Turns a red sibling into a black one. */
  method BlackenSibling(r: RbRoot, parent: Ref, other: Ref, side: Side, ghost c: Ctx, ghost t: Tree, ghost h: nat)
    requires InMem(r.m, r.node, Plug(c, t)) && ShortAt(c, t, h) && c.In? && c.sib.T? && c.sib.red
    requires parent == c.id && other == c.sib.id && side == c.side
    modifies r`m, r`node
    ensures InMem(r.m, r.node, Plug(Raised(c), t))
    ensures Alike(old(r.m), r.m, Plug(c, t), Plug(Raised(c), t))
  {
    SiblingThere(c, t, h);
    ghost var s' := c.sib.(red := false);
    FromBelow(c.up, parent, false, side, t, c.sib);
    FromBelow(c.up, parent, false, side, t, s');
    r.SetColour(other, false, In(c.up, parent, false, side.Other(), t), c.sib);
    r.SetColour(parent, true, c.up, Mk(side, t, parent, false, s'));
    r.Rotate(parent, side, c.up, Mk(side, t, parent, true, s'));
    RaiseSibling(c, t, h);
  }

  /** Makes the far child of the sibling red. */
  method TurnAtSibling(r: RbRoot, other: Ref, near: Ref, side: Side, ghost c: Ctx, ghost t: Tree, ghost h: nat)
    requires InMem(r.m, r.node, Plug(c, t)) && ShortAt(c, t, h) && c.In? && c.sib.T? && !c.sib.red
    requires IsRed(Kid(c.sib, c.side)) && !IsRed(Kid(c.sib, c.side.Other()))
    requires other == c.sib.id && near == Kid(c.sib, c.side).id && side == c.side
    modifies r`m, r`node
    ensures InMem(r.m, r.node, Plug(c.(sib := FarRed(c.sib, side)), t))
    ensures Alike(old(r.m), r.m, Plug(c, t), Plug(c.(sib := FarRed(c.sib, side)), t))
  {
    ghost var sc := In(c.up, c.id, c.red, side.Other(), t);
    ghost var n, far := Kid(c.sib, side), Kid(c.sib, side.Other());
    ghost var n' := n.(red := false);
    FromBelow(c.up, c.id, c.red, side, t, c.sib);
    FromBelow(sc, other, false, side, n, far);
    FromBelow(sc, other, false, side, n', far);
    r.SetColour(near, false, In(sc, other, false, side, far), n);
    r.SetColour(other, true, sc, Mk(side, n', other, false, far));
    r.Rotate(other, side.Other(), sc, Mk(side, n', other, true, far));
    TurnSibling(c, t, h);
    FromBelow(c.up, c.id, c.red, side, t, FarRed(c.sib, side));
  }

  /** Ends the repair at a sibling whose far child is red. */
  method EndAtSibling(r: RbRoot, parent: Ref, other: Ref, far: Ref, side: Side, ghost c: Ctx, ghost t: Tree, ghost h: nat)
    returns (ghost t': Tree, ghost hh: nat)
    requires InMem(r.m, r.node, Plug(c, t)) && ShortAt(c, t, h) && c.In? && c.sib.T? && !c.sib.red && !IsRed(t)
    requires IsRed(Kid(c.sib, c.side.Other()))
    requires parent == c.id && other == c.sib.id && far == Kid(c.sib, c.side.Other()).id && side == c.side
    modifies r`m, r`node
    ensures InMem(r.m, r.node, t') && RedBlack(t', hh)
    ensures Alike(old(r.m), r.m, Plug(c, t), t')
  {
    ghost var s1 := c.sib.(red := c.red);
    ghost var near, ft := Kid(c.sib, side), Kid(c.sib, side.Other());
    ghost var s2 := Mk(side, near, other, c.red, Black(ft));
    ghost var sc := In(c.up, parent, false, side.Other(), t);
    SeeSibling(r.m, r.node, c, t);
    var colour := r.m[parent].red;
    FromBelow(c.up, parent, c.red, side, t, c.sib);
    FromBelow(c.up, parent, c.red, side, t, s1);
    FromBelow(c.up, parent, false, side, t, s1);
    FromBelow(c.up, parent, false, side, t, s2);
    FromBelow(sc, other, c.red, side, near, ft);
    FromBelow(sc, other, c.red, side, near, Black(ft));
    r.SetColour(other, colour, In(c.up, parent, c.red, side.Other(), t), c.sib);
    r.SetColour(parent, false, c.up, Mk(side, t, parent, c.red, s1));
    r.SetColour(far, false, In(sc, other, c.red, side.Other(), near), ft);
    ghost var g := Mk(side, t, parent, false, s2);
    r.Rotate(parent, side, c.up, g);
    t' := Plug(c.up, Rotated(g, side));
    hh := EndRepair(c, t, h);
  }

  /** The children of the sibling are black or missing. */
  method BothBlack(r: RbRoot, other: Ref, ghost c: Ctx, ghost t: Tree) returns (b: bool)
    requires InMem(r.m, r.node, Plug(c, t)) && c.In? && c.sib.T? && other == c.sib.id
    ensures b <==> !IsRed(c.sib.left) && !IsRed(c.sib.right)
  {
    SeeSibling(r.m, r.node, c, t);
    var left, right := r.m[other].left, r.m[other].right;
    b := (left == NULL || !r.m[left].red) && (right == NULL || !r.m[right].red);
  }

  /** One turn of the repair: done, or the short part is higher up or has a red top now. */
  method RepairStep(r: RbRoot, x: Ref, parent: Ref, ghost c: Ctx, ghost t: Tree, ghost h: nat)
    returns (done: bool, x': Ref, parent': Ref, ghost c': Ctx, ghost t': Tree, ghost h': nat)
    requires InMem(r.m, r.node, Plug(c, t)) && ShortAt(c, t, h) && c.In? && !IsRed(t)
    requires x == NodeOf(t) && parent == c.id
    modifies r`m, r`node
    ensures InMem(r.m, r.node, Plug(c', t')) && Alike(old(r.m), r.m, Plug(c, t), Plug(c', t'))
    ensures x' == NodeOf(t') && parent' == ParentOf(c')
    ensures done ==> c' == Top && RedBlack(t', h')
    ensures !done ==> ShortAt(c', t', h') && Climb(c', t') < Climb(c, t)
  {
    SiblingThere(c, t, h);
    SeeSibling(r.m, r.node, c, t);
    var side := if r.m[parent].left == x then Left else Right;
    var other := r.m[parent].Child(side.Other());
    ghost var m0, t0, c1 := r.m, Plug(c, t), c;
    if r.m[other].red {
      BlackenSibling(r, parent, other, side, c, t, h);
      c1 := Raised(c);
      RaiseSibling(c, t, h);
      SeeSibling(r.m, r.node, c1, t);
      other := r.m[parent].Child(side.Other());
    }
    ghost var m1, t1 := r.m, Plug(c1, t);
    done, x', parent', c', t', h' := AtBlackSibling(r, parent, other, side, c1, t, h);
    AlikeTwice(m0, m1, r.m, t0, t1, Plug(c', t'));
  }

  /** The rest of a turn, with a black sibling. */
  method AtBlackSibling(r: RbRoot, parent: Ref, other: Ref, side: Side, ghost c: Ctx, ghost t: Tree, ghost h: nat)
    returns (done: bool, x': Ref, parent': Ref, ghost c': Ctx, ghost t': Tree, ghost h': nat)
    requires InMem(r.m, r.node, Plug(c, t)) && ShortAt(c, t, h) && c.In? && !IsRed(t) && c.sib.T? && !c.sib.red
    requires parent == c.id && other == c.sib.id && side == c.side
    modifies r`m, r`node
    ensures InMem(r.m, r.node, Plug(c', t')) && Alike(old(r.m), r.m, Plug(c, t), Plug(c', t'))
    ensures x' == NodeOf(t') && parent' == ParentOf(c')
    ensures done ==> c' == Top && RedBlack(t', h')
    ensures !done ==> ShortAt(c', t', h') && c' == c.up && IsRed(t') == c.red
  {
    done := false;
    var both := BothBlack(r, other, c, t);
    if both {
      FromBelow(c.up, parent, c.red, side, t, c.sib);
      FromBelow(c.up, parent, c.red, side, t, c.sib.(red := true));
      r.SetColour(other, true, In(c.up, parent, c.red, side.Other(), t), c.sib);
      h' := PushShortUp(c, t, h);
      c', t' := c.up, Mk(side, t, parent, c.red, c.sib.(red := true));
      Look(r.m, r.node, c', t');
      x', parent' := parent, r.m[parent].parent;
      return;
    }
    ghost var m0, t0, c1 := r.m, Plug(c, t), c;
    SeeSibling(r.m, r.node, c, t);
    var far, other' := r.m[other].Child(side.Other()), other;
    if far == NULL || !r.m[far].red {
      TurnAtSibling(r, other, r.m[other].Child(side), side, c, t, h);
      TurnSibling(c, t, h);
      c1 := c.(sib := FarRed(c.sib, side));
      SeeSibling(r.m, r.node, c1, t);
      other' := r.m[parent].Child(side.Other());
    }
    ghost var m1, t1 := r.m, Plug(c1, t);
    t', h' := EndAtSibling(r, parent, other', r.m[other'].Child(side.Other()), side, c1, t, h);
    AlikeTwice(m0, m1, r.m, t0, t1, t');
    LinksRoot(r.m, t', r.node, NULL);
    done, c', x', parent' := true, Top, r.node, NULL;
  }

  /** Restores the black heights after a black node was taken out above `x`. */
  method EraseColor(r: RbRoot, x0: Ref, parent0: Ref, ghost c0: Ctx, ghost t0: Tree, ghost h0: nat)
    returns (ghost t': Tree, ghost hh: nat)
    requires InMem(r.m, r.node, Plug(c0, t0)) && ShortAt(c0, t0, h0)
    requires x0 == NodeOf(t0) && parent0 == ParentOf(c0)
    modifies r`m, r`node
    ensures InMem(r.m, r.node, t') && RedBlack(t', hh)
    ensures Alike(old(r.m), r.m, Plug(c0, t0), t')
  {
    var x, parent, done := x0, parent0, false;
    ghost var c, t, h := c0, t0, h0;
    AtRoot(r.m, r.node, c, t);
    while !done && (x == NULL || !r.m[x].red) && x != r.node
      invariant InMem(r.m, r.node, Plug(c, t)) && Alike(old(r.m), r.m, Plug(c0, t0), Plug(c, t))
      invariant x == NodeOf(t) && parent == ParentOf(c)
      invariant x != NULL ==> x in r.m && r.m[x].red == t.red
      invariant x == r.node <==> c.Top? || (t.Nil? && r.node == NULL)
      invariant t.T? ==> x != NULL
      invariant r.node == NULL ==> c.Top?
      invariant if done then c == Top && RedBlack(t, h) else ShortAt(c, t, h)
      decreases !done, Climb(c, t)
    {
      ghost var m1, t1 := r.m, Plug(c, t);
      done, x, parent, c, t, h := RepairStep(r, x, parent, c, t, h);
      AlikeTwice(old(r.m), m1, r.m, Plug(c0, t0), t1, Plug(c, t));
      AtRoot(r.m, r.node, c, t);
    }
    hh := FinalColours(c, t, h, done);
    t' := Plug(c, Black(t));
    if x != NULL {
      ghost var m1, t1 := r.m, Plug(c, t);
      r.SetColour(x, false, c, t);
      AlikeTwice(old(r.m), m1, r.m, Plug(c0, t0), t1, t');
    }
  }

  lemma FinalColours(c: Ctx, t: Tree, h: nat, done: bool) returns (hh: nat)
    requires if done then c == Top && RedBlack(t, h) else ShortAt(c, t, h) && (IsRed(t) || c.Top?)
    ensures RedBlack(Plug(c, Black(t)), hh)
  {
    if done {
      hh := h;
    } else {
      hh := BlackenTop(c, t, h);
    }
  }

  /** The part in focus is the whole tree exactly when its node is the root. */
  lemma AtRoot(m: Mem, root: Ref, c: Ctx, t: Tree)
    requires InMem(m, root, Plug(c, t))
    ensures NodeOf(t) == root <==> c.Top? || (t.Nil? && root == NULL)
    ensures root == NULL ==> c.Top?
    ensures t.T? ==> t.id in m && t.id != NULL && m[t.id].red == t.red
  {
    Focus(m, root, c, t);
    LinksRoot(m, t, NodeOf(t), ParentOf(c));
    RootInside(m, root, c, NodeOf(t), ParentOf(c));
    NoNullCtx(m, c, NodeOf(t), ParentOf(c), root);
  }
}
