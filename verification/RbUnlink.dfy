/** Taking a node out of a red-black tree in memory. */
module RbUnlink {
  import opened RbShape
  import opened RbRotate
  import opened RbWalk
  import opened RbErase

  // ---------------------------------------------------------------- taking out a node with a free side

  /** The only subtree of a node with a missing child. */
  ghost function Rest(t: Tree): Tree
    requires t.T?
  {
    if t.left.Nil? then t.right else t.left
  }

  /** Memory after the child of the node of `t` took its place. */
  ghost predicate Spliced(m: Mem, m': Mem, root: Ref, root': Ref, c: Ctx, ct: Tree) {
    && m'.Keys == m.Keys
    && (ct.T? ==> ct.id in m && m'[ct.id] == m[ct.id].(parent := ParentOf(c)))
    && (if c.Top? then root' == NodeOf(ct) else root' == root && c.id in m && m'[c.id] == m[c.id].SetChild(c.side, NodeOf(ct)))
    && (forall x :: x in m && (ct.Nil? || x != ct.id) && (c.Top? || x != c.id) ==> m'[x] == m[x])
  }

  lemma SpliceOut(m: Mem, m': Mem, root: Ref, root': Ref, c: Ctx, t: Tree)
    requires InMem(m, root, Plug(c, t)) && t.T? && (t.left.Nil? || t.right.Nil?)
    requires Spliced(m, m', root, root', c, Rest(t))
    ensures InMem(m', root', Plug(c, Rest(t)))
  {
    var ct := Rest(t);
    Focus(m, root, c, t);
    Open(m, t, t.id, ParentOf(c), Left);
    LinksRoot(m, t.left, m[t.id].left, t.id);
    LinksRoot(m, t.right, m[t.id].right, t.id);
    Reparented(m, m', ct, NodeOf(ct), t.id, ParentOf(c));
    SpliceAround(m, m', root, root', c, ct);
    Focus(m', root', c, ct);
  }

  lemma SpliceAround(m: Mem, m': Mem, root: Ref, root': Ref, c: Ctx, ct: Tree)
    requires exists n :: CtxLinks(m, c, n, ParentOf(c), root)
    requires CtxDistinct(c) && Nodes(ct) !! CtxNodes(c) && Spliced(m, m', root, root', c, ct)
    ensures CtxLinks(m', c, NodeOf(ct), ParentOf(c), root')
  {
    if c.In? {
      KeepLinks(m, m', c.sib, m[c.id].Child(c.side.Other()), c.id);
      KeepCtx(m, m', c.up, c.id, m[c.id].parent, root);
      assert m'[c.id].Child(c.side.Other()) == m[c.id].Child(c.side.Other());
    }
  }

  /** `s` without the element at position `i`. */
  ghost function Without(s: seq<Ref>, i: nat): seq<Ref>
    requires i < |s|
  {
    s[..i] + s[i + 1..]
  }

  lemma DropMiddle(a: seq<Ref>, l: seq<Ref>, x: Ref, r: seq<Ref>, d: seq<Ref>)
    ensures Without(a + (l + [x] + r) + d, |a| + |l|) == a + (l + r) + d
  {
  }

  lemma SpliceContents(c: Ctx, t: Tree)
    requires t.T? && (t.left.Nil? || t.right.Nil?)
    ensures Rank(c, t) < |Inorder(Plug(c, t))|
    ensures Inorder(Plug(c, Rest(t))) == Without(Inorder(Plug(c, t)), Rank(c, t))
  {
    RestOrder(t);
    DropNode(c, t, Rest(t));
  }

  /** A tree with the elements of `t` but its root, in its place. */
  lemma DropNode(c: Ctx, t: Tree, t': Tree)
    requires t.T? && Inorder(t') == Inorder(t.left) + Inorder(t.right)
    ensures Rank(c, t) < |Inorder(Plug(c, t))|
    ensures Inorder(Plug(c, t')) == Without(Inorder(Plug(c, t)), Rank(c, t))
  {
    InorderPlug(c, t);
    InorderPlug(c, t');
    DropMiddle(Before(c), Inorder(t.left), t.id, Inorder(t.right), After(c));
  }

  lemma RestOrder(t: Tree)
    requires t.T? && (t.left.Nil? || t.right.Nil?)
    ensures Inorder(t.left) + Inorder(t.right) == Inorder(Rest(t))
  {
  }

  lemma SpliceNodes(c: Ctx, t: Tree)
    requires t.T? && (t.left.Nil? || t.right.Nil?) && Distinct(Plug(c, t))
    ensures Nodes(Plug(c, Rest(t))) == Nodes(Plug(c, t)) - {t.id}
  {
    NodesPlug(c, t);
    NodesPlug(c, Rest(t));
  }

  // ---------------------------------------------------------------- taking the place of a node

  /** Memory after `y` took the place of `z`. */
  ghost predicate Swapped(m: Mem, m': Mem, root: Ref, root': Ref, c: Ctx, l: Tree, z: Ref, r: Tree, y: Ref)
    requires z in m
  {
    && m'.Keys == m.Keys && y in m && m'[y] == m[z]
    && (l.T? ==> l.id in m && m'[l.id] == m[l.id].(parent := y))
    && (r.T? ==> r.id in m && m'[r.id] == m[r.id].(parent := y))
    && (if c.Top? then root' == y else root' == root && c.id in m && m'[c.id] == m[c.id].SetChild(c.side, y))
    && (forall x :: x in m && x != y && x != z && (l.Nil? || x != l.id) && (r.Nil? || x != r.id) && (c.Top? || x != c.id) ==> m'[x] == m[x])
  }

  lemma TakePlace(m: Mem, m': Mem, root: Ref, root': Ref, c: Ctx, l: Tree, z: Ref, red: bool, r: Tree, y: Ref)
    requires InMem(m, root, Plug(c, T(l, z, red, r))) && y !in Nodes(Plug(c, T(l, z, red, r))) && y != NULL && z in m
    requires Swapped(m, m', root, root', c, l, z, r, y)
    ensures InMem(m', root', Plug(c, T(l, y, red, r)))
  {
    var t, t' := T(l, z, red, r), T(l, y, red, r);
    Focus(m, root, c, t);
    NodesPlug(c, t);
    LinksRoot(m, l, m[z].left, z);
    LinksRoot(m, r, m[z].right, z);
    Reparented(m, m', l, m[z].left, z, y);
    Reparented(m, m', r, m[z].right, z, y);
    TakePlaceAround(m, m', root, root', c, l, z, r, y);
    Focus(m', root', c, t');
  }

  lemma TakePlaceAround(m: Mem, m': Mem, root: Ref, root': Ref, c: Ctx, l: Tree, z: Ref, r: Tree, y: Ref)
    requires z in m && z !in CtxNodes(c) && y !in CtxNodes(c) && CtxLinks(m, c, z, ParentOf(c), root) && CtxDistinct(c)
    requires Nodes(l) !! CtxNodes(c) && Nodes(r) !! CtxNodes(c) && Swapped(m, m', root, root', c, l, z, r, y)
    ensures CtxLinks(m', c, y, ParentOf(c), root')
  {
    if c.In? {
      KeepLinks(m, m', c.sib, m[c.id].Child(c.side.Other()), c.id);
      KeepCtx(m, m', c.up, c.id, m[c.id].parent, root);
      assert m'[c.id].Child(c.side.Other()) == m[c.id].Child(c.side.Other());
    }
  }

  // ---------------------------------------------------------------- the way to the successor

  /** `inner` with `outer` around it. */
  ghost function Compose(inner: Ctx, outer: Ctx): Ctx {
    if inner.Top? then outer else inner.(up := Compose(inner.up, outer))
  }

  lemma {:induction false} PlugCompose(inner: Ctx, outer: Ctx, t: Tree)
    ensures Plug(Compose(inner, outer), t) == Plug(outer, Plug(inner, t))
    decreases inner
  {
    if inner.In? {
      PlugCompose(inner.up, outer, Mk(inner.side, t, inner.id, inner.red, inner.sib));
    }
  }

  /** Only the colours of a surrounding node matter for the colour rules. */
  lemma {:induction false} ComposeColours(inner: Ctx, up: Ctx, z: Ref, y: Ref, red: bool, side: Side, sib: Tree, h: nat, holeRed: bool)
    ensures var c, c' := Compose(inner, In(up, z, red, side, sib)), Compose(inner, In(up, y, red, side, sib));
            && CtxBalanced(c, h) == CtxBalanced(c', h)
            && CtxNoRedRed(c, holeRed) == CtxNoRedRed(c', holeRed)
            && CtxTopBlack(c) == CtxTopBlack(c')
    decreases inner
  {
    var c, c' := Compose(inner, In(up, z, red, side, sib)), Compose(inner, In(up, y, red, side, sib));
    CtxColours(c, h, holeRed);
    CtxColours(c', h, holeRed);
    if inner.In? {
      ComposeColours(inner.up, up, z, y, red, side, sib, if inner.red then h else h + 1, inner.red);
    }
  }

  /** The leftmost node of the right subtree, and the way to it. */
  method Successor(r: RbRoot, z: Ref, ghost c: Ctx, ghost t: Tree) returns (y: Ref, ghost inner: Ctx, ghost yt: Tree)
    requires InMem(r.m, r.node, Plug(c, t)) && t.T? && t.id == z && t.right.T?
    ensures yt.T? && yt.id == y && yt.left.Nil? && Plug(inner, yt) == t.right && Before(inner) == []
    ensures inner.In? ==> inner.side == Left
  {
    ghost var zc := In(c, z, t.red, Right, t.left);
    FromBelow(c, z, t.red, Right, t.right, t.left);
    Look(r.m, r.node, c, t);
    y := r.m[z].right;
    inner, yt := Top, t.right;
    Look(r.m, r.node, zc, yt);
    while r.m[y].left != NULL
      invariant yt.T? && yt.id == y && Plug(inner, yt) == t.right && Before(inner) == []
      invariant inner.In? ==> inner.side == Left
      invariant y in r.m && r.m[y].left == NodeOf(yt.left) && (yt.left.T? ==> yt.left.id != NULL)
      decreases yt
    {
      y := r.m[y].left;
      FromBelow(inner, yt.id, yt.red, Left, yt.left, yt.right);
      inner, yt := In(inner, yt.id, yt.red, Left, yt.right), yt.left;
      PlugCompose(inner, zc, yt);
      Look(r.m, r.node, Compose(inner, zc), yt);
    }
  }

  // ---------------------------------------------------------------- unlinking

  /** Colours after a node with a free side was taken out: fine if it was red, else one black node short. */
  lemma SpliceColours(c: Ctx, t: Tree, hh: nat) returns (h: nat)
    requires RedBlack(Plug(c, t), hh) && t.T? && (t.left.Nil? || t.right.Nil?)
    ensures t.red ==> RedBlack(Plug(c, Rest(t)), h)
    ensures !t.red ==> ShortAt(c, Rest(t), h)
  {
    var g := ColoursUnplug(c, t, hh);
    KidColours(t, Left, g);
    if t.red {
      CtxWeaker(c, true);
      ColoursPlug(c, Rest(t), g);
      h := TopHeight(c, g);
    } else {
      h := g - 1;
      if Rest(t).T? {
        KidColours(Rest(t), Left, h);
        KidColours(Black(Rest(t)), Left, h + 1);
      }
    }
  }

  /** Takes out a node with a free side. */
  method UnlinkSimple(r: RbRoot, z: Ref, child: Ref, ghost c: Ctx, ghost t: Tree) returns (parent: Ref)
    requires InMem(r.m, r.node, Plug(c, t)) && t.T? && t.id == z && (t.left.Nil? || t.right.Nil?)
    requires child == NodeOf(Rest(t))
    modifies r`m, r`node
    ensures InMem(r.m, r.node, Plug(c, Rest(t))) && parent == ParentOf(c)
    ensures Touched(old(r.m), r.m, Nodes(Plug(c, t)))
  {
    ghost var m0, node0, ct := r.m, r.node, Rest(t);
    Look(r.m, r.node, c, t);
    Focus(r.m, r.node, c, t);
    NodesPlug(c, t);
    SeeChild(r.m, r.node, c, t);
    LinksRoot(r.m, ct, child, z);
    parent := r.m[z].parent;
    if child != NULL {
      r.m := r.m[child := r.m[child].(parent := parent)];
    }
    if parent != NULL {
      if r.m[parent].left == z {
        r.m := r.m[parent := r.m[parent].(left := child)];
      } else {
        r.m := r.m[parent := r.m[parent].(right := child)];
      }
    } else {
      r.node := child;
    }
    SpliceOut(m0, r.m, node0, r.node, c, t);
  }

  // ---------------------------------------------------------------- unlinking a node with two children

  /** The nodes around the node `z` to take out and its successor `y`: all different, except as said. */
  ghost predicate Neighbours(m: Mem, z: Ref, y: Ref) {
    && z in m && y in m && z != NULL && y != NULL && z != y
    && var p, l, rr, child, q := m[z].parent, m[z].left, m[z].right, m[y].right, m[y].parent;
       && l in m && rr in m && q in m && l != NULL && rr != NULL && q != NULL
       && (p != NULL ==> p in m) && (child != NULL ==> child in m)
       && p != z && p != y && p != l && p != rr && p != q && (p == NULL || p != child)
       && l != z && l != y && l != rr && l != q && l != child
       && rr != z && (rr == y <==> q == z) && (q != z ==> rr != child) && child != z && child != y && (q != z ==> q != child) && q != y
  }

  /** What taking out `z` by way of its successor `y` changes in memory. */
  ghost predicate Relinked(m: Mem, m': Mem, root: Ref, root': Ref, z: Ref, y: Ref)
    requires Neighbours(m, z, y)
  {
    var p, l, rr, child, q := m[z].parent, m[z].left, m[z].right, m[y].right, m[y].parent;
    && m'.Keys == m.Keys
    && m'[y] == m[z].(right := if q == z then child else rr)
    && m'[l] == m[l].(parent := y)
    && (q != z ==> m'[rr] == if q == rr then m[rr].(left := child, parent := y) else m[rr].(parent := y))
    && (q != z && q != rr ==> m'[q] == m[q].(left := child))
    && (q != z && child != NULL ==> m'[child] == m[child].(parent := q))
    && (if p == NULL then root' == y else root' == root && m'[p] == Replaced(m[p], Left, z, y))
    && (forall x :: x in m && x != y && x != l && (x == NULL || x != p) && (q == z || (x != rr && x != q && (x == NULL || x != child)))
          ==> m'[x] == m[x])
  }

  /** Puts `y` where `z` was in the parent of `z`, or at the root. */
  method ReplaceInParent(r: RbRoot, z: Ref, y: Ref)
    requires z in r.m && (r.m[z].parent != NULL ==> r.m[z].parent in r.m)
    modifies r`m, r`node
    ensures var p := old(r.m)[z].parent;
            if p == NULL then r.m == old(r.m) && r.node == y
            else r.m == old(r.m)[p := Replaced(old(r.m)[p], Left, z, y)] && r.node == old(r.node)
  {
    var up := r.m[z].parent;
    if up != NULL {
      if r.m[up].left == z {
        r.m := r.m[up := r.m[up].(left := y)];
      } else {
        r.m := r.m[up := r.m[up].(right := y)];
      }
    } else {
      r.node := y;
    }
  }

  /** Memory after a successor further down left its place. */
  ghost predicate Detached(m: Mem, m': Mem, z: Ref, y: Ref) {
    && z in m && y in m
    && var rr, child, q := m[z].right, m[y].right, m[y].parent;
       && rr in m && q in m && (child != NULL ==> child in m)
       && m'.Keys == m.Keys
       && m'[y] == m[y].(right := rr)
       && m'[rr] == (if q == rr then m[rr].(left := child, parent := y) else m[rr].(parent := y))
       && (q != rr ==> m'[q] == m[q].(left := child))
       && (child != NULL ==> m'[child] == m[child].(parent := q))
       && (forall x :: x in m && x != y && x != rr && x != q && (x == NULL || x != child) ==> m'[x] == m[x])
  }

  /** Memory after `y` took the parent, the colour and the left child of `z`. */
  ghost function TookLinks(m: Mem, z: Ref, y: Ref): Mem
    requires z in m && y in m && m[z].left in m
  {
    m[y := m[z].(right := m[y].right)][m[z].left := m[m[z].left].(parent := y)]
  }

  /** Takes a successor further down out of its place. */
  method Detach(r: RbRoot, z: Ref, y: Ref, child: Ref, parent: Ref)
    requires Neighbours(r.m, z, y) && child == r.m[y].right && parent == r.m[y].parent && parent != z
    modifies r`m
    ensures Detached(old(r.m), r.m, z, y)
  {
    if child != NULL {
      r.m := r.m[child := r.m[child].(parent := parent)];
    }
    r.m := r.m[parent := r.m[parent].(left := child)];
    r.m := r.m[y := r.m[y].(right := r.m[z].right)];
    r.m := r.m[r.m[z].right := r.m[r.m[z].right].(parent := y)];
  }

  /** Copies the parent, colour and left child of `z` to `y`. */
  method TakeLinks(r: RbRoot, z: Ref, y: Ref)
    requires z in r.m && y in r.m && z != y && r.m[z].left in r.m && r.m[z].left != z && r.m[z].left != y
    modifies r`m
    ensures r.m == TookLinks(old(r.m), z, y)
  {
    r.m := r.m[y := r.m[y].(parent := r.m[z].parent, red := r.m[z].red)];
    r.m := r.m[y := r.m[y].(left := r.m[z].left)];
    r.m := r.m[r.m[z].left := r.m[r.m[z].left].(parent := y)];
  }

  /** Links the successor in place of the node with two children. */
  method Relink(r: RbRoot, z: Ref, y: Ref) returns (child: Ref, parent: Ref, red: bool)
    requires Neighbours(r.m, z, y)
    modifies r`m, r`node
    ensures Relinked(old(r.m), r.m, old(r.node), r.node, z, y)
    ensures child == old(r.m)[y].right && red == old(r.m)[y].red
    ensures parent == if old(r.m)[y].parent == z then y else old(r.m)[y].parent
  {
    ghost var m, root := r.m, r.node;
    ReplaceInParent(r, z, y);
    ghost var m1 := r.m;
    child, parent, red := r.m[y].right, r.m[y].parent, r.m[y].red;
    if parent == z {
      parent := y;
    } else {
      Detach(r, z, y, child, parent);
    }
    ghost var m2 := r.m;
    TakeLinks(r, z, y);
    RelinkedBy(m, m1, m2, r.m, root, r.node, z, y);
  }

  /** What the three steps of it change together. */
  lemma RelinkedBy(m: Mem, m1: Mem, m2: Mem, m': Mem, root: Ref, root': Ref, z: Ref, y: Ref)
    requires Neighbours(m, z, y)
    requires var p := m[z].parent;
             if p == NULL then m1 == m && root' == y else m1 == m[p := Replaced(m[p], Left, z, y)] && root' == root
    requires if m[y].parent == z then m2 == m1 else Detached(m1, m2, z, y)
    requires z in m2 && y in m2 && m2[z].left in m2 && m' == TookLinks(m2, z, y)
    ensures Relinked(m, m', root, root', z, y)
  {
  }

  /** The top of a filled context: in the hole, or one of its nodes, whatever fills the hole. */
  lemma {:induction false} TopOf(c: Ctx, t: Tree, u: Tree)
    requires c.In?
    ensures Plug(c, t).T? && Plug(c, u).T? && Plug(c, t).id == Plug(c, u).id && Plug(c, t).id in CtxNodes(c)
    decreases c
  {
    if c.up.In? {
      TopOf(c.up, Mk(c.side, t, c.id, c.red, c.sib), Mk(c.side, u, c.id, c.red, c.sib));
    }
  }

  /** The parts of a tree around a node with two children and its successor. */
  ghost predicate TwoKids(c: Ctx, t: Tree, inner: Ctx, yt: Tree) {
    && t.T? && t.left.T? && yt.T? && yt.left.Nil? && t.right == Plug(inner, yt)
    && (inner.In? ==> inner.side == Left)
  }

  /** What the cells of the node, its children and its successor show. */
  lemma SeeAround(m: Mem, root: Ref, c: Ctx, t: Tree, inner: Ctx, yt: Tree)
    requires InMem(m, root, Plug(c, t)) && TwoKids(c, t, inner, yt)
    ensures t.right.T? && t.id in m && m[t.id] == Cell(t.left.id, t.right.id, ParentOf(c), t.red)
    ensures yt.id in m && m[yt.id] == Cell(NULL, NodeOf(yt.right), ParentOf(Compose(inner, In(c, t.id, t.red, Right, t.left))), yt.red)
    ensures Neighbours(m, t.id, yt.id)
    ensures (yt.right.T? ==> yt.right.id in m && yt.right.id != NULL && m[yt.right.id].parent == yt.id) && (c.In? ==> c.id in m && c.id != NULL)
    ensures inner.In? ==> inner.id in CtxNodes(inner) && inner.id != t.id && inner.id in m && m[inner.id].left == yt.id && t.right.id in CtxNodes(inner)
  {
    var zc := In(c, t.id, t.red, Right, t.left);
    var cy := Compose(inner, zc);
    PlugCompose(inner, zc, yt);
    if inner.In? {
      TopOf(inner, yt, yt);
      FromBelow(cy.up, inner.id, inner.red, Left, yt, inner.sib);
      Look(m, root, cy.up, Mk(Left, yt, inner.id, inner.red, inner.sib));
    }
    Look(m, root, c, t);
    Look(m, root, cy, yt);
    FromBelow(c, t.id, t.red, Left, t.left, t.right);
    Look(m, root, In(c, t.id, t.red, Left, t.right), t.left);
    Look(m, root, zc, t.right);
    Focus(m, root, c, t);
    CtxParent(m, c, t.id, ParentOf(c), root);
    NoNullCtx(m, c, t.id, ParentOf(c), root);
    NodesPlug(inner, yt);
    Focus(m, root, cy, yt);
    LinksRoot(m, yt.right, m[yt.id].right, yt.id);
    AllApart(m, c, t, inner, yt);
  }

  lemma AllApart(m: Mem, c: Ctx, t: Tree, inner: Ctx, yt: Tree)
    requires TwoKids(c, t, inner, yt) && Apart(c, t) && t.right.T? && t.left.id != NULL && t.right.id != NULL && t.id != NULL && yt.id != NULL
    requires t.id in m && m[t.id] == Cell(t.left.id, t.right.id, ParentOf(c), t.red)
    requires yt.id in m && m[yt.id] == Cell(NULL, NodeOf(yt.right), ParentOf(Compose(inner, In(c, t.id, t.red, Right, t.left))), yt.red)
    requires t.left.id in m && t.right.id in m && (c.In? ==> c.id in m && c.id != NULL) && (inner.In? ==> inner.id in m && inner.id != NULL)
    requires yt.right.T? ==> yt.right.id in m && yt.right.id != NULL
    ensures Neighbours(m, t.id, yt.id)
  {
    NodesPlug(inner, yt);
    if inner.In? {
      TopOf(inner, yt, yt);
    }
    assert t.left.id in Nodes(t.left) && t.right.id in Nodes(t.right) && yt.id in Nodes(yt);
    assert yt.right.T? ==> yt.right.id in Nodes(yt.right);
    assert c.In? ==> c.id in CtxNodes(c);
  }

  /** The tree after its node was taken out by way of the successor. */
  ghost function SuccessorTree(t: Tree, inner: Ctx, yt: Tree): Tree
    requires t.T? && yt.T?
  {
    T(t.left, yt.id, t.red, Plug(inner, yt.right))
  }

  lemma RelinkDone(m: Mem, m': Mem, root: Ref, root': Ref, c: Ctx, t: Tree, inner: Ctx, yt: Tree)
    requires InMem(m, root, Plug(c, t)) && TwoKids(c, t, inner, yt)
    requires Neighbours(m, t.id, yt.id) && Relinked(m, m', root, root', t.id, yt.id)
    ensures InMem(m', root', Plug(c, SuccessorTree(t, inner, yt)))
  {
    var z, y, yr := t.id, yt.id, yt.right;
    var r' := Plug(inner, yr);
    SeeAround(m, root, c, t, inner, yt);
    var m1 := OutMem(m, Compose(inner, In(c, z, t.red, Right, t.left)), yr);
    SuccessorOut(m, root, c, t, inner, yt);
    if inner.In? {
      TopOf(inner, yt, yr);
    }
    SeeChild(m, root, c, t);
    SameButOne(m, m1, m', root, root', z, y, ParentOf(c), NodeOf(r'), if c.In? then c.side else Left);
    SwapAgrees(m1, m', root, root', c, T(t.left, z, t.red, r'), y);
  }

  /** Memory after the child `ct` took the place of the node in the hole of `c`. */
  ghost function OutMem(m: Mem, c: Ctx, ct: Tree): Mem
    requires c.In? && c.id in m && (ct.T? ==> ct.id in m)
  {
    var m0 := m[c.id := m[c.id].SetChild(c.side, NodeOf(ct))];
    if ct.Nil? then m0 else m0[ct.id := m0[ct.id].(parent := c.id)]
  }

  /** First the successor leaves its place. */
  lemma SuccessorOut(m: Mem, root: Ref, c: Ctx, t: Tree, inner: Ctx, yt: Tree)
    requires InMem(m, root, Plug(c, t)) && TwoKids(c, t, inner, yt)
    ensures var cy := Compose(inner, In(c, t.id, t.red, Right, t.left));
            && cy.In? && cy.id in m && (yt.right.T? ==> yt.right.id in m)
            && var m1, t' := OutMem(m, cy, yt.right), T(t.left, t.id, t.red, Plug(inner, yt.right));
               InMem(m1, root, Plug(c, t')) && m1.Keys == m.Keys && yt.id !in Nodes(Plug(c, t'))
  {
    var zc := In(c, t.id, t.red, Right, t.left);
    var cy := Compose(inner, zc);
    SeeAround(m, root, c, t, inner, yt);
    PlugCompose(inner, zc, yt);
    PlugCompose(inner, zc, yt.right);
    SpliceOut(m, OutMem(m, cy, yt.right), root, root, cy, yt);
    SpliceNodes(cy, yt);
    FromBelow(c, t.id, t.red, Right, Plug(inner, yt.right), t.left);
  }

  /** If memory is that of the swap but for the cell of the node taken out, it holds the tree. */
  lemma SwapAgrees(m: Mem, m': Mem, root: Ref, root': Ref, c: Ctx, t: Tree, y: Ref)
    requires InMem(m, root, Plug(c, t)) && t.T? && y !in Nodes(Plug(c, t)) && y in m && y != NULL && t.id in m
    requires if c.Top? then root' == y else root' == root
    requires (t.left.T? ==> t.left.id in m) && (t.right.T? ==> t.right.id in m) && (c.In? ==> c.id in m)
    requires m'.Keys == m.Keys && forall x :: x in m' && x != t.id ==> SwapMem(m, c, t.left, t.id, t.right, y)[x] == m'[x]
    ensures InMem(m', root', Plug(c, t.(id := y)))
  {
    SwapDone(m, root, root', c, t, y);
    KeepLinks(SwapMem(m, c, t.left, t.id, t.right, y), m', Plug(c, t.(id := y)), root', NULL);
  }

  lemma SwapDone(m: Mem, root: Ref, root': Ref, c: Ctx, t: Tree, y: Ref)
    requires InMem(m, root, Plug(c, t)) && t.T? && y !in Nodes(Plug(c, t)) && y in m && y != NULL && t.id in m
    requires if c.Top? then root' == y else root' == root
    requires (t.left.T? ==> t.left.id in m) && (t.right.T? ==> t.right.id in m) && (c.In? ==> c.id in m)
    ensures InMem(SwapMem(m, c, t.left, t.id, t.right, y), root', Plug(c, t.(id := y)))
    ensures t.id !in Nodes(Plug(c, t.(id := y)))
  {
    SwapIs(m, root, root', c, t, y);
    TakePlace(m, SwapMem(m, c, t.left, t.id, t.right, y), root, root', c, t.left, t.id, t.red, t.right, y);
    LeftBehind(c, t, y);
  }

  lemma SwapIs(m: Mem, root: Ref, root': Ref, c: Ctx, t: Tree, y: Ref)
    requires InMem(m, root, Plug(c, t)) && t.T? && y !in Nodes(Plug(c, t)) && y in m && t.id in m
    requires if c.Top? then root' == y else root' == root
    requires (t.left.T? ==> t.left.id in m) && (t.right.T? ==> t.right.id in m) && (c.In? ==> c.id in m)
    ensures Swapped(m, SwapMem(m, c, t.left, t.id, t.right, y), root, root', c, t.left, t.id, t.right, y)
  {
    SeeKids(m, root, c, t);
    Focus(m, root, c, t);
    NodesPlug(c, t);
  }

  /** Moving the successor in two steps leaves the memory that the code leaves, but for the cell taken out. */
  lemma SameButOne(m: Mem, m1: Mem, m': Mem, root: Ref, root': Ref, z: Ref, y: Ref, p: Ref, rr': Ref, side: Side)
    requires Neighbours(m, z, y) && Relinked(m, m', root, root', z, y)
    requires var child, q := m[y].right, m[y].parent;
             var m0 := m[q := m[q].SetChild(if q == z then Right else Left, child)];
             && m1 == (if child == NULL then m0 else m0[child := m0[child].(parent := q)])
             && rr' == (if q == z then child else m[z].right)
             && (child != NULL ==> m[child].parent == y)
    requires p == m[z].parent && (p != NULL ==> m[p].Child(side) == z && m[p].Child(side.Other()) != z)
    ensures var m2 := m1[y := m1[z]];
            var l := m[z].left;
            var m3 := m2[l := m2[l].(parent := y)];
            var m4 := if rr' == NULL then m3 else m3[rr' := m3[rr'].(parent := y)];
            var m5 := if p == NULL then m4 else m4[p := m4[p].SetChild(side, y)];
            forall x :: x in m' && x != z ==> m5[x] == m'[x]
  {
    var m2 := m1[y := m1[z]];
    var l, q := m[z].left, m[y].parent;
    var m3 := m2[l := m2[l].(parent := y)];
    var m4 := if rr' == NULL then m3 else m3[rr' := m3[rr'].(parent := y)];
    var m5 := if p == NULL then m4 else m4[p := m4[p].SetChild(side, y)];
    forall x | x in m' && x != z
      ensures m5[x] == m'[x]
    {
      if q == z {
      } else if x == y {
      } else if x == q {
      } else {
      }
    }
  }

  /** Memory after `y` took the place of `z`, its own cell left behind. */
  ghost function SwapMem(m: Mem, c: Ctx, l: Tree, z: Ref, r: Tree, y: Ref): Mem
    requires z in m && (l.T? ==> l.id in m) && (r.T? ==> r.id in m) && (c.In? ==> c.id in m)
  {
    var m1 := m[y := m[z]];
    var m2 := if l.T? then m1[l.id := m1[l.id].(parent := y)] else m1;
    var m3 := if r.T? then m2[r.id := m2[r.id].(parent := y)] else m2;
    if c.In? then m3[c.id := m3[c.id].SetChild(c.side, y)] else m3
  }

  lemma SeeKids(m: Mem, root: Ref, c: Ctx, t: Tree)
    requires InMem(m, root, Plug(c, t)) && t.T?
    ensures t.left.T? ==> t.left.id in m && t.left.id != t.id && t.left.id !in CtxNodes(c)
    ensures t.right.T? ==> t.right.id in m && t.right.id != t.id && t.right.id !in CtxNodes(c) && (t.left.T? ==> t.left.id != t.right.id)
    ensures c.In? ==> c.id in CtxNodes(c)
  {
    Focus(m, root, c, t);
    LinksRoot(m, t.left, m[t.id].left, t.id);
    LinksRoot(m, t.right, m[t.id].right, t.id);
  }

  lemma LeftBehind(c: Ctx, t: Tree, y: Ref)
    requires t.T? && Distinct(Plug(c, t)) && y !in Nodes(Plug(c, t))
    ensures t.id !in Nodes(Plug(c, t.(id := y)))
  {
    NodesPlug(c, t);
    NodesPlug(c, t.(id := y));
  }

  // ---------------------------------------------------------------- contents and colours

  lemma SuccessorContents(c: Ctx, t: Tree, inner: Ctx, yt: Tree)
    requires TwoKids(c, t, inner, yt) && Before(inner) == []
    ensures Rank(c, t) < |Inorder(Plug(c, t))|
    ensures Inorder(Plug(c, SuccessorTree(t, inner, yt))) == Without(Inorder(Plug(c, t)), Rank(c, t))
  {
    SuccessorOrder(t, inner, yt);
    DropNode(c, t, SuccessorTree(t, inner, yt));
  }

  lemma SuccessorOrder(t: Tree, inner: Ctx, yt: Tree)
    requires t.T? && yt.T? && yt.left.Nil? && t.right == Plug(inner, yt) && Before(inner) == []
    ensures Inorder(SuccessorTree(t, inner, yt)) == Inorder(t.left) + Inorder(t.right)
  {
    FirstInner(inner, yt);
    assert Inorder(t.left) + [yt.id] + Inorder(Plug(inner, yt.right))
        == Inorder(t.left) + ([yt.id] + Inorder(Plug(inner, yt.right)));
  }

  /** Along left links only, the node at the end comes first. */
  lemma FirstInner(inner: Ctx, yt: Tree)
    requires Before(inner) == [] && yt.T? && yt.left.Nil?
    ensures Inorder(Plug(inner, yt)) == [yt.id] + Inorder(Plug(inner, yt.right))
  {
    InorderPlug(inner, yt);
    InorderPlug(inner, yt.right);
    assert Inorder(yt) == [yt.id] + Inorder(yt.right);
    InFront(yt.id, Inorder(yt.right), After(inner));
  }

  lemma InFront(x: Ref, s: seq<Ref>, after: seq<Ref>)
    ensures [] + ([x] + s) + after == [x] + ([] + s + after)
  {
  }

  lemma SuccessorColours(c: Ctx, t: Tree, inner: Ctx, yt: Tree, hh: nat) returns (h: nat)
    requires RedBlack(Plug(c, t), hh) && TwoKids(c, t, inner, yt)
    ensures var c' := Compose(inner, In(c, yt.id, t.red, Right, t.left));
            && Plug(c', yt.right) == Plug(c, SuccessorTree(t, inner, yt))
            && (yt.red ==> RedBlack(Plug(c', yt.right), h))
            && (!yt.red ==> ShortAt(c', yt.right, h))
  {
    var zc, yc := In(c, t.id, t.red, Right, t.left), In(c, yt.id, t.red, Right, t.left);
    var c' := Compose(inner, yc);
    PlugCompose(inner, zc, yt);
    PlugCompose(inner, yc, yt.right);
    FromBelow(c, t.id, t.red, Right, t.right, t.left);
    FromBelow(c, yt.id, t.red, Right, Plug(inner, yt.right), t.left);
    var g := ColoursUnplug(Compose(inner, zc), yt, hh);
    ComposeColours(inner, c, t.id, yt.id, t.red, Right, t.left, g, yt.red);
    ColoursPlug(c', yt, g);
    h := SpliceColours(c', yt, TopHeight(c', g));
  }

  // ---------------------------------------------------------------- erasing

  /** Takes the node out of the links; the part below `c'` may be one black node short. */
  method Unlink(r: RbRoot, z: Ref, ghost c: Ctx, ghost t: Tree, ghost hh: nat)
    returns (child: Ref, parent: Ref, red: bool, ghost c': Ctx, ghost ct: Tree, ghost h: nat)
    requires InMem(r.m, r.node, Plug(c, t)) && RedBlack(Plug(c, t), hh) && t.T? && t.id == z
    modifies r`m, r`node
    ensures InMem(r.m, r.node, Plug(c', ct)) && child == NodeOf(ct) && parent == ParentOf(c')
    ensures if red then RedBlack(Plug(c', ct), h) else ShortAt(c', ct, h)
    ensures Rank(c, t) < |Inorder(Plug(c, t))| && Inorder(Plug(c', ct)) == Without(Inorder(Plug(c, t)), Rank(c, t))
    ensures Touched(old(r.m), r.m, Nodes(Plug(c, t)))
  {
    Look(r.m, r.node, c, t);
    if r.m[z].left == NULL || r.m[z].right == NULL {
      child := if r.m[z].left == NULL then r.m[z].right else r.m[z].left;
      red := r.m[z].red;
      parent := UnlinkSimple(r, z, child, c, t);
      c', ct := c, Rest(t);
      SpliceContents(c, t);
      h := SpliceColours(c, t, hh);
    } else {
      child, parent, red, c', ct, h := UnlinkInner(r, z, c, t, hh);
    }
  }

  /** Takes out a node with two children. */
  method UnlinkInner(r: RbRoot, z: Ref, ghost c: Ctx, ghost t: Tree, ghost hh: nat)
    returns (child: Ref, parent: Ref, red: bool, ghost c': Ctx, ghost ct: Tree, ghost h: nat)
    requires InMem(r.m, r.node, Plug(c, t)) && RedBlack(Plug(c, t), hh) && t.T? && t.id == z && t.left.T? && t.right.T?
    modifies r`m, r`node
    ensures InMem(r.m, r.node, Plug(c', ct)) && child == NodeOf(ct) && parent == ParentOf(c')
    ensures if red then RedBlack(Plug(c', ct), h) else ShortAt(c', ct, h)
    ensures Rank(c, t) < |Inorder(Plug(c, t))| && Inorder(Plug(c', ct)) == Without(Inorder(Plug(c, t)), Rank(c, t))
    ensures Touched(old(r.m), r.m, Nodes(Plug(c, t)))
  {
    ghost var m0, node0 := r.m, r.node;
    var y;
    ghost var inner, yt;
    y, inner, yt := Successor(r, z, c, t);
    SeeAround(r.m, r.node, c, t, inner, yt);
    child, parent, red := Relink(r, z, y);
    RelinkDone(m0, r.m, node0, r.node, c, t, inner, yt);
    RelinkTouches(m0, r.m, node0, r.node, c, t, inner, yt);
    SuccessorContents(c, t, inner, yt);
    c', ct := Compose(inner, In(c, y, t.red, Right, t.left)), yt.right;
    h := SuccessorColours(c, t, inner, yt, hh);
  }

  lemma RelinkTouches(m: Mem, m': Mem, root: Ref, root': Ref, c: Ctx, t: Tree, inner: Ctx, yt: Tree)
    requires InMem(m, root, Plug(c, t)) && TwoKids(c, t, inner, yt)
    requires Neighbours(m, t.id, yt.id) && Relinked(m, m', root, root', t.id, yt.id)
    ensures Touched(m, m', Nodes(Plug(c, t)))
  {
    SeeAround(m, root, c, t, inner, yt);
    NodesPlug(c, t);
    NodesPlug(inner, yt);
    assert t.left.id in Nodes(t.left) && t.right.id in Nodes(t.right) && (yt.right.T? ==> yt.right.id in Nodes(yt.right));
    assert c.In? ==> c.id in CtxNodes(c);
  }

  /** Takes the node in focus out of the tree and restores the colour rules. */
  method EraseAt(r: RbRoot, z: Ref, ghost c: Ctx, ghost t: Tree, ghost hh: nat) returns (ghost t': Tree, ghost hh': nat)
    requires InMem(r.m, r.node, Plug(c, t)) && RedBlack(Plug(c, t), hh) && t.T? && t.id == z
    modifies r`m, r`node
    ensures InMem(r.m, r.node, t') && RedBlack(t', hh')
    ensures Rank(c, t) < |Inorder(Plug(c, t))| && Inorder(t') == Without(Inorder(Plug(c, t)), Rank(c, t))
    ensures Touched(old(r.m), r.m, Nodes(Plug(c, t)))
  {
    var child, parent, red;
    ghost var c', ct, h;
    child, parent, red, c', ct, h := Unlink(r, z, c, t, hh);
    t', hh' := Plug(c', ct), h;
    if !red {
      ghost var m1 := r.m;
      t', hh' := EraseColor(r, child, parent, c', ct, h);
      SubNodes(Plug(c, t), Plug(c', ct), Rank(c, t));
    }
  }

  /** The nodes that are left were there before. */
  lemma SubNodes(t: Tree, t': Tree, i: nat)
    requires i < |Inorder(t)| && Inorder(t') == Without(Inorder(t), i)
    ensures Nodes(t') <= Nodes(t)
  {
    InorderNodes(t);
    InorderNodes(t');
    var s := Inorder(t);
    forall x | x in Nodes(t')
      ensures x in Nodes(t)
    {
      assert x in s[..i] || x in s[i + 1..];
    }
  }

  /** A sorted sequence without one element. */
  lemma SortedWithout(key: Ref -> int, s: seq<Ref>, i: nat)
    requires i < |s| && Sorted(key, s) && InBounds(key, s)
    ensures Sorted(key, Without(s, i)) && InBounds(key, Without(s, i)) && s[i] !in Without(s, i)
    ensures forall x :: x in Without(s, i) <==> x in s && x != s[i]
    ensures First(Without(s, i)) == if s[i] == First(s) then Neighbour(s, i, Right) else First(s)
    ensures Last(Without(s, i)) == if s[i] == Last(s) then Neighbour(s, i, Left) else Last(s)
  {
    var s' := Without(s, i);
    forall k | 0 <= k < |s'|
      ensures s'[k] == s[if k < i then k else k + 1] && s'[k] != s[i]
    {
    }
    forall x | x in s && x != s[i]
      ensures x in s'
    {
      var k :| 0 <= k < |s| && s[k] == x;
      assert s'[if k < i then k else k - 1] == x;
    }
  }

  /**
   Erases a node of the tree.  The tree holds exactly the other nodes in the same order, stays a
   red-black search tree, and its ends stay cached.
   */
  method Erase(r: RbRoot, z: Ref, ghost key: Ref -> int)
    requires r.Valid(key) && z in Nodes(r.shape)
    modifies r`m, r`node, r`leftmost, r`rightmost, r`shape, r`height
    ensures r.Valid(key)
    ensures exists i :: 0 <= i < |Inorder(old(r.shape))| && Inorder(old(r.shape))[i] == z
                     && Inorder(r.shape) == Without(Inorder(old(r.shape)), i)
    ensures Nodes(r.shape) == Nodes(old(r.shape)) - {z}
    ensures Touched(old(r.m), r.m, Nodes(old(r.shape)))
  {
    ghost var t0, h0 := r.shape, r.height;
    ghost var c, t, i := FocusOn(t0, z);
    FixEnds(r, z, c, t);
    ghost var t', hh := EraseAt(r, z, c, t, h0);
    EraseDone(key, t0, t', i, h0, hh);
    r.shape, r.height := t', hh;
  }

  /** Brings a node of the tree into focus. */
  lemma FocusOn(t0: Tree, z: Ref) returns (c: Ctx, t: Tree, i: nat)
    requires z in Nodes(t0)
    ensures Plug(c, t) == t0 && t.T? && t.id == z && i == Rank(c, t) && i < |Inorder(t0)| && Inorder(t0)[i] == z
  {
    var s := Inorder(t0);
    InorderNodes(t0);
    i :| 0 <= i < |s| && s[i] == z;
    c, t := FindFocus(t0, Top, i);
    RankIs(c, t);
  }

  /** Moves the cached ends off the node to be erased. */
  method FixEnds(r: RbRoot, z: Ref, ghost c: Ctx, ghost t: Tree)
    requires InMem(r.m, r.node, Plug(c, t)) && t.T? && t.id == z
    modifies r`leftmost, r`rightmost
    ensures Rank(c, t) < |Inorder(Plug(c, t))|
    ensures r.leftmost == if z == old(r.leftmost) then Neighbour(Inorder(Plug(c, t)), Rank(c, t), Right) else old(r.leftmost)
    ensures r.rightmost == if z == old(r.rightmost) then Neighbour(Inorder(Plug(c, t)), Rank(c, t), Left) else old(r.rightmost)
  {
    RankIs(c, t);
    if z == r.leftmost {
      r.leftmost := Next(r, z, Right, c, t);
    }
    if z == r.rightmost {
      r.rightmost := Next(r, z, Left, c, t);
    }
  }

  lemma EraseDone(key: Ref -> int, t: Tree, t': Tree, i: nat, h: nat, h': nat)
    requires SearchTree(key, t, h) && RedBlack(t', h') && i < |Inorder(t)| && Inorder(t') == Without(Inorder(t), i)
    ensures var s := Inorder(t);
            && SearchTree(key, t', h') && Nodes(t') == Nodes(t) - {s[i]}
            && First(Inorder(t')) == (if s[i] == First(s) then Neighbour(s, i, Right) else First(s))
            && Last(Inorder(t')) == (if s[i] == Last(s) then Neighbour(s, i, Left) else Last(s))
  {
    SortedWithout(key, Inorder(t), i);
    InorderNodes(t);
    InorderNodes(t');
  }
}
