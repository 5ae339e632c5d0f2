/** Rotations and colour changes on a red-black tree in memory. */
module RbRotate {
  import opened RbShape

  /** `t` rotated towards `side`: the child on the other side becomes the top. */
  ghost function Rotated(t: Tree, side: Side): Tree
    requires t.T? && Kid(t, side.Other()).T?
  {
    var y := Kid(t, side.Other());
    Mk(side, Mk(side, Kid(t, side), t.id, t.red, Kid(y, side)), y.id, y.red, Kid(y, side.Other()))
  }

  lemma RotatedSame(t: Tree, side: Side)
    requires t.T? && Kid(t, side.Other()).T?
    ensures Nodes(Rotated(t, side)) == Nodes(t)
    ensures Distinct(Rotated(t, side)) <==> Distinct(t)
    ensures Inorder(Rotated(t, side)) == Inorder(t)
  {
    var y := Kid(t, side.Other());
    Reassociate(Inorder(Kid(t, side)), t.id, Inorder(Kid(y, side)), y.id, Inorder(Kid(y, side.Other())));
    Reassociate(Inorder(Kid(y, side.Other())), y.id, Inorder(Kid(y, side)), t.id, Inorder(Kid(t, side)));
  }

  lemma Reassociate(a: seq<Ref>, x: Ref, b: seq<Ref>, y: Ref, d: seq<Ref>)
    ensures a + [x] + (b + [y] + d) == a + [x] + b + [y] + d
  {
  }

  /** Memory changed at most at the addresses in `s`. */
  ghost predicate Touched(m: Mem, m': Mem, s: set<Ref>) {
    m'.Keys == m.Keys && forall x :: x in m && x !in s ==> m'[x] == m[x]
  }

  /** The two nodes of a rotation, their three subtrees and the rest share nothing. */
  ghost predicate Pieces(c: Ctx, x: Ref, y: Ref, a: Tree, b: Tree, d: Tree) {
    && x != y
    && x !in Nodes(a) && x !in Nodes(b) && x !in Nodes(d) && x !in CtxNodes(c)
    && y !in Nodes(a) && y !in Nodes(b) && y !in Nodes(d) && y !in CtxNodes(c)
    && Nodes(a) !! Nodes(b) && Nodes(a) !! Nodes(d) && Nodes(b) !! Nodes(d)
    && CtxNodes(c) !! Nodes(a) && CtxNodes(c) !! Nodes(b) && CtxNodes(c) !! Nodes(d)
  }

  lemma TakeApart(m: Mem, root: Ref, c: Ctx, t: Tree, side: Side, node: Ref, p: Ref)
    requires Whole(m, root, c, t, node, p) && t.T? && Kid(t, side.Other()).T?
    ensures node == t.id && node != NULL && node in m && m[node].parent == p && m[node].red == t.red
    ensures var kid, yt := m[node].Child(side.Other()), Kid(t, side.Other());
            && kid == yt.id && kid != NULL && kid in m && m[kid].red == yt.red && m[kid].parent == node
            && Pieces(c, node, kid, Kid(t, side), Kid(yt, side), Kid(yt, side.Other()))
            && Distinct(Kid(yt, side))
            && Links(m, Kid(t, side), m[node].Child(side), node)
            && Links(m, Kid(yt, side), m[kid].Child(side), kid)
            && Links(m, Kid(yt, side.Other()), m[kid].Child(side.Other()), kid)
            && Nodes(t) == Nodes(Kid(t, side)) + {node, kid} + Nodes(Kid(yt, side)) + Nodes(Kid(yt, side.Other()))
  {
    var yt := Kid(t, side.Other());
    Open(m, t, node, p, side);
    Open(m, yt, m[node].Child(side.Other()), node, side);
    OpenSets(t, side);
    OpenSets(yt, side);
  }

  lemma PutRotated(m: Mem, root: Ref, c: Ctx, t: Tree, side: Side, node: Ref, kid: Ref, p: Ref)
    requires t.T? && Kid(t, side.Other()).T? && Apart(c, t)
    requires node != NULL && kid != NULL && node in m && kid in m
    requires var yt := Kid(t, side.Other());
             && node == t.id && kid == yt.id && m[node].red == t.red && m[kid].red == yt.red
             && Links(m, Kid(t, side), m[node].Child(side), node)
             && Links(m, Kid(yt, side), m[node].Child(side.Other()), node)
             && Links(m, Kid(yt, side.Other()), m[kid].Child(side.Other()), kid)
             && m[kid].Child(side) == node && m[node].parent == kid && m[kid].parent == p
    requires CtxLinks(m, c, kid, p, root)
    ensures Whole(m, root, c, Rotated(t, side), kid, p)
  {
    RotatedSame(t, side);
  }

  /** A tree whose top node got another parent. */
  lemma Reparented(m: Mem, m': Mem, t: Tree, n: Ref, p: Ref, p': Ref)
    requires Links(m, t, n, p) && Distinct(t)
    requires t.T? ==> n in m' && m'[n] == m[n].(parent := p')
    requires forall x :: x in Nodes(t) && x != n && x in m ==> x in m' && m'[x] == m[x]
    ensures Links(m', t, n, p')
  {
    if t.T? {
      KeepLinks(m, m', t.left, m[n].left, n);
      KeepLinks(m, m', t.right, m[n].right, n);
    }
  }

  /** A tree whose top node got another colour. */
  lemma Recoloured(m: Mem, m': Mem, t: Tree, n: Ref, p: Ref, red: bool)
    requires Links(m, t, n, p) && t.T? && Distinct(t)
    requires n in m' && m'[n] == m[n].(red := red)
    requires forall x :: x in Nodes(t) && x != n && x in m ==> x in m' && m'[x] == m[x]
    ensures Links(m', t.(red := red), n, p)
  {
    KeepLinks(m, m', t.left, m[n].left, n);
    KeepLinks(m, m', t.right, m[n].right, n);
  }

  /** The cell of a parent whose child `n`, on `side` unless it is on the other, becomes `n'`. */
  function Replaced(cell: Cell, side: Side, n: Ref, n': Ref): Cell {
    if cell.Child(side) == n then cell.SetChild(side, n') else cell.SetChild(side.Other(), n')
  }

  /** The rest of the tree, when its hole gets another node. */
  lemma Refilled(m: Mem, m': Mem, c: Ctx, side: Side, n: Ref, n': Ref, p: Ref, root: Ref, root': Ref)
    requires CtxLinks(m, c, n, p, root) && CtxDistinct(c) && n != NULL && n !in CtxNodes(c)
    requires if p == NULL then root' == n' else root' == root && p in m' && p in m && m'[p] == Replaced(m[p], side, n, n')
    requires forall x :: x in CtxNodes(c) && x != p && x in m ==> x in m' && m'[x] == m[x]
    ensures CtxLinks(m', c, n', p, root')
  {
    if c.In? {
      var sib := m[p].Child(c.side.Other());
      LinksRoot(m, c.sib, sib, p);
      KeepLinks(m, m', c.sib, sib, p);
      KeepCtx(m, m', c.up, p, m[p].parent, root);
    }
  }

  // ---------------------------------------------------------------- a tree in memory

  ghost function NodeOf(t: Tree): Ref {
    if t.Nil? then NULL else t.id
  }

  ghost function ParentOf(c: Ctx): Ref {
    if c.Top? then NULL else c.id
  }

  /** Memory holds the tree `t`, with its top node at `root`. */
  ghost predicate InMem(m: Mem, root: Ref, t: Tree) {
    Links(m, t, root, NULL) && Distinct(t)
  }

  /** Looking at a part of a tree in memory. */
  lemma {:induction false} Focus(m: Mem, root: Ref, c: Ctx, t: Tree)
    ensures InMem(m, root, Plug(c, t)) <==> Whole(m, root, c, t, NodeOf(t), ParentOf(c))
    decreases c
  {
    match c
    case Top =>
    case In(up, id, red, side, sib) =>
      var t' := Mk(side, t, id, red, sib);
      Focus(m, root, up, t');
      if Whole(m, root, c, t, NodeOf(t), id) {
        FocusUp(m, root, c, t, NodeOf(t), id);
        ParentLink(m, up, id, m[id].parent, root);
      }
      if Whole(m, root, up, t', id, ParentOf(up)) {
        FocusDown(m, root, up, t', id, ParentOf(up), side);
        LinksRoot(m, t, m[id].Child(side), id);
      }
  }

  lemma ParentLink(m: Mem, c: Ctx, n: Ref, p: Ref, root: Ref)
    requires CtxLinks(m, c, n, p, root)
    ensures p == ParentOf(c)
  {
  }

  /** What the cell of a node of the tree shows. */
  lemma Look(m: Mem, root: Ref, c: Ctx, t: Tree)
    requires InMem(m, root, Plug(c, t)) && t.T?
    ensures t.id != NULL && t.id in m
    ensures m[t.id] == Cell(NodeOf(t.left), NodeOf(t.right), ParentOf(c), t.red)
    ensures c.Top? <==> t.id == root
    ensures (t.left.T? ==> t.left.id != NULL) && (t.right.T? ==> t.right.id != NULL)
  {
    Focus(m, root, c, t);
    LinksRoot(m, t.left, m[t.id].left, t.id);
    LinksRoot(m, t.right, m[t.id].right, t.id);
    RootInside(m, root, c, t.id, ParentOf(c));
  }

  /** The root is in the hole, or it is a node of the rest. */
  lemma {:induction false} RootInside(m: Mem, root: Ref, c: Ctx, n: Ref, p: Ref)
    requires CtxLinks(m, c, n, p, root)
    ensures if c.Top? then root == n else root in CtxNodes(c)
    decreases c
  {
    if c.In? {
      RootInside(m, root, c.up, p, m[p].parent);
    }
  }

  lemma Painted(m: Mem, m': Mem, root: Ref, c: Ctx, t: Tree, red: bool)
    requires InMem(m, root, Plug(c, t)) && t.T?
    requires t.id in m && m' == m[t.id := m[t.id].(red := red)]
    ensures InMem(m', root, Plug(c, t.(red := red)))
    ensures t.id in Nodes(Plug(c, t))
  {
    Focus(m, root, c, t);
    Recoloured(m, m', t, t.id, ParentOf(c), red);
    KeepCtx(m, m', c, t.id, ParentOf(c), root);
    NodesPlug(c, t);
    Focus(m', root, c, t.(red := red));
  }

  /** The two trees hold the same nodes in the same order, and memory changed only there. */
  ghost predicate Alike(m: Mem, m': Mem, t: Tree, t': Tree) {
    Inorder(t') == Inorder(t) && Nodes(t') == Nodes(t) && Touched(m, m', Nodes(t))
  }

  lemma AlikeTwice(m: Mem, m1: Mem, m': Mem, t: Tree, t1: Tree, t': Tree)
    requires Alike(m, m1, t, t1) && Alike(m1, m', t1, t')
    ensures Alike(m, m', t, t')
  {
  }

  lemma SameContents(c: Ctx, t: Tree, t': Tree)
    requires Inorder(t) == Inorder(t') && Nodes(t) == Nodes(t')
    ensures Inorder(Plug(c, t')) == Inorder(Plug(c, t)) && Nodes(Plug(c, t')) == Nodes(Plug(c, t))
  {
    InorderPlug(c, t);
    InorderPlug(c, t');
    NodesPlug(c, t);
    NodesPlug(c, t');
  }

  // ---------------------------------------------------------------- the object

  ghost function First(s: seq<Ref>): Ref {
    if s == [] then NULL else s[0]
  }

  ghost function Last(s: seq<Ref>): Ref {
    if s == [] then NULL else s[|s| - 1]
  }

  /* The comparison of block numbers is an order below this. */
  const KEY_BOUND: int := 0x8000_0000_0000_0000

  ghost predicate InBounds(key: Ref -> int, s: seq<Ref>) {
    forall i :: 0 <= i < |s| ==> 0 <= key(s[i]) < KEY_BOUND
  }

  /** A red-black search tree. */
  ghost predicate SearchTree(key: Ref -> int, t: Tree, h: nat) {
    RedBlack(t, h) && Sorted(key, Inorder(t)) && InBounds(key, Inorder(t))
  }

  /** The root structure of a tree and the memory its nodes are in. */
  class RbRoot {
    var m: Mem
    var node: Ref
    var leftmost: Ref
    var rightmost: Ref
    /* the tree in memory and its black height */
    ghost var shape: Tree
    ghost var height: nat

    /** An empty tree in a memory that may hold other nodes. */
    constructor (m: Mem)
      ensures this.m == m && shape == Nil && forall key :: Valid(key)
    {
      this.m := m;
      node, leftmost, rightmost := NULL, NULL, NULL;
      shape, height := Nil, 0;
    }

    /** Memory holds a red-black tree sorted by `key`, with its ends cached. */
    ghost predicate Valid(key: Ref -> int)
      reads this
    {
      && InMem(m, node, shape) && SearchTree(key, shape, height)
      && leftmost == First(Inorder(shape)) && rightmost == Last(Inorder(shape))
    }

    /** Colours the node `n`. */
    method SetColour(n: Ref, red: bool, ghost c: Ctx, ghost t: Tree)
      requires InMem(m, node, Plug(c, t)) && t.T? && t.id == n
      modifies this`m
      ensures InMem(m, node, Plug(c, t.(red := red)))
      ensures Alike(old(m), m, Plug(c, t), Plug(c, t.(red := red)))
    {
      Look(m, node, c, t);
      SameContents(c, t, t.(red := red));
      Painted(m, m[n := m[n].(red := red)], node, c, t, red);
      m := m[n := m[n].(red := red)];
    }

    /** The link changes of a rotation at `n`, whose other child becomes the top. */
    method TurnLinks(n: Ref, side: Side)
      requires n in m && m[n].Child(side.Other()) in m
      requires var kid, p := m[n].Child(side.Other()), m[n].parent;
               var inner := m[kid].Child(side);
               && (inner != NULL ==> inner in m) && (p != NULL ==> p in m)
               && n != NULL && kid != NULL && n != kid && inner != n && inner != kid && p != n && p != kid && (p == NULL || p != inner)
      modifies this`m, this`node
      ensures Turned(old(m), m, old(node), node, side, n)
    {
      var kid, parent := m[n].Child(side.Other()), m[n].parent;
      var inner := m[kid].Child(side);
      m := m[n := m[n].SetChild(side.Other(), inner)];
      if inner != NULL {
        m := m[inner := m[inner].(parent := n)];
      }
      m := m[kid := m[kid].SetChild(side, n)];
      m := m[kid := m[kid].(parent := parent)];
      if parent != NULL {
        if n == m[parent].Child(side) {
          m := m[parent := m[parent].SetChild(side, kid)];
        } else {
          m := m[parent := m[parent].SetChild(side.Other(), kid)];
        }
      } else {
        node := kid;
      }
      m := m[n := m[n].(parent := kid)];
    }

    /** Rotates the tree at `n` towards `side`. */
    method Rotate(n: Ref, side: Side, ghost c: Ctx, ghost t: Tree)
      requires InMem(m, node, Plug(c, t)) && t.T? && t.id == n && Kid(t, side.Other()).T?
      modifies this`m, this`node
      ensures InMem(m, node, Plug(c, Rotated(t, side)))
      ensures Alike(old(m), m, Plug(c, t), Plug(c, Rotated(t, side)))
    {
      RotatedSame(t, side);
      SameContents(c, t, Rotated(t, side));
      ghost var m0, node0 := m, node;
      Focus(m, node, c, t);
      Look(m, node, c, t);
      TurnApart(m, node, c, t, side, n);
      TurnLinks(n, side);
      RotateDone(m0, m, node0, node, c, t, side, n);
      Focus(m, node, c, Rotated(t, side));
      NodesPlug(c, t);
    }
  }

  /** What a rotation at `n` changes in memory. */
  ghost predicate Turned(m: Mem, m': Mem, root: Ref, root': Ref, side: Side, n: Ref)
    requires n in m && m[n].Child(side.Other()) in m
  {
    var kid, p := m[n].Child(side.Other()), m[n].parent;
    var inner := m[kid].Child(side);
    && m'.Keys == m.Keys
    && m'[n] == m[n].SetChild(side.Other(), inner).(parent := kid)
    && m'[kid] == m[kid].SetChild(side, n).(parent := p)
    && (inner != NULL ==> inner in m && m'[inner] == m[inner].(parent := n))
    && (if p == NULL then root' == kid else root' == root && p in m && m'[p] == Replaced(m[p], side, n, kid))
    && (forall x :: x in m && x != n && x != kid && (x == NULL || (x != p && x != inner)) ==> m'[x] == m[x])
  }

  lemma TurnApart(m: Mem, root: Ref, c: Ctx, t: Tree, side: Side, n: Ref)
    requires n in m && Whole(m, root, c, t, n, m[n].parent) && t.T? && Kid(t, side.Other()).T?
    ensures m[n].Child(side.Other()) in m
    ensures var kid, p := m[n].Child(side.Other()), m[n].parent;
            var inner := m[kid].Child(side);
            && (inner != NULL ==> inner in m && inner in Nodes(Kid(Kid(t, side.Other()), side)))
            && (p != NULL ==> p in m && p in CtxNodes(c))
            && n != NULL && kid != NULL && n != kid && inner != n && inner != kid && p != n && p != kid && (p == NULL || p != inner)
  {
    TakeApart(m, root, c, t, side, n, m[n].parent);
    var kid := m[n].Child(side.Other());
    LinksRoot(m, Kid(Kid(t, side.Other()), side), m[kid].Child(side), kid);
    CtxParent(m, c, n, m[n].parent, root);
  }

  lemma {:induction false} NoNull(m: Mem, t: Tree, n: Ref, p: Ref)
    requires Links(m, t, n, p)
    ensures NULL !in Nodes(t)
    decreases t
  {
    if t.T? {
      NoNull(m, t.left, m[n].left, n);
      NoNull(m, t.right, m[n].right, n);
    }
  }

  lemma {:induction false} NoNullCtx(m: Mem, c: Ctx, n: Ref, p: Ref, root: Ref)
    requires CtxLinks(m, c, n, p, root)
    ensures NULL !in CtxNodes(c)
    decreases c
  {
    if c.In? {
      NoNull(m, c.sib, m[p].Child(c.side.Other()), p);
      NoNullCtx(m, c.up, p, m[p].parent, root);
    }
  }

  /** A subtree that a rotation does not touch. */
  lemma TurnKeeps(m: Mem, m': Mem, root: Ref, root': Ref, side: Side, n: Ref, a: Tree, an: Ref, ap: Ref)
    requires n in m && m[n].Child(side.Other()) in m && Turned(m, m', root, root', side, n)
    requires Links(m, a, an, ap) && n !in Nodes(a) && m[n].Child(side.Other()) !in Nodes(a) && m[n].parent !in Nodes(a)
    requires m[m[n].Child(side.Other())].Child(side) !in Nodes(a)
    ensures Links(m', a, an, ap)
  {
    NoNull(m, a, an, ap);
    KeepLinks(m, m', a, an, ap);
  }

  lemma RotateDone(m: Mem, m': Mem, root: Ref, root': Ref, c: Ctx, t: Tree, side: Side, n: Ref)
    requires n in m && Whole(m, root, c, t, n, m[n].parent) && t.T? && Kid(t, side.Other()).T?
    requires m[n].Child(side.Other()) in m && Turned(m, m', root, root', side, n)
    ensures Whole(m', root', c, Rotated(t, side), Kid(t, side.Other()).id, m[n].parent)
    ensures Touched(m, m', Nodes(t) + CtxNodes(c))
  {
    var yt, kid, p := Kid(t, side.Other()), m[n].Child(side.Other()), m[n].parent;
    var inner := m[kid].Child(side);
    TakeApart(m, root, c, t, side, n, p);
    TurnApart(m, root, c, t, side, n);
    NoNullCtx(m, c, n, p, root);
    NoNull(m, Kid(t, side), m[n].Child(side), n);
    NoNull(m, Kid(yt, side), inner, kid);
    NoNull(m, Kid(yt, side.Other()), m[kid].Child(side.Other()), kid);
    TurnKeeps(m, m', root, root', side, n, Kid(t, side), m[n].Child(side), n);
    TurnKeeps(m, m', root, root', side, n, Kid(yt, side.Other()), m[kid].Child(side.Other()), kid);
    TurnMiddle(m, m', root, root', side, n, Kid(yt, side));
    TurnAround(m, m', root, root', c, side, n);
    PutRotated(m', root', c, t, side, n, kid, p);
  }

  /** The middle subtree changes its parent. */
  lemma TurnMiddle(m: Mem, m': Mem, root: Ref, root': Ref, side: Side, n: Ref, b: Tree)
    requires n in m && m[n].Child(side.Other()) in m && Turned(m, m', root, root', side, n)
    requires var kid := m[n].Child(side.Other());
             && Links(m, b, m[kid].Child(side), kid) && Distinct(b) && NULL !in Nodes(b)
             && n !in Nodes(b) && kid !in Nodes(b) && m[n].parent !in Nodes(b)
    ensures Links(m', b, m[m[n].Child(side.Other())].Child(side), n)
  {
    var kid := m[n].Child(side.Other());
    LinksRoot(m, b, m[kid].Child(side), kid);
    Reparented(m, m', b, m[kid].Child(side), kid, n);
  }

  /** The rest of the tree gets the new top. */
  lemma TurnAround(m: Mem, m': Mem, root: Ref, root': Ref, c: Ctx, side: Side, n: Ref)
    requires n in m && m[n].Child(side.Other()) in m && Turned(m, m', root, root', side, n)
    requires CtxLinks(m, c, n, m[n].parent, root) && CtxDistinct(c) && n != NULL && n !in CtxNodes(c)
    requires var kid := m[n].Child(side.Other()); kid !in CtxNodes(c) && m[kid].Child(side) !in CtxNodes(c)
    ensures CtxLinks(m', c, m[n].Child(side.Other()), m[n].parent, root')
  {
    Refilled(m, m', c, side, n, m[n].Child(side.Other()), m[n].parent, root, root');
  }
}
