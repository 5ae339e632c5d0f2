/**
 Red-black trees in memory, and the shapes they form: trees of nodes, and trees with a hole.

 Memory maps the address of a node to its child and parent links and its colour.  `Tree` is the
 shape that the links below a node spell out; `Ctx` is the rest of the tree around it, from the
 node's parent up to the root.  The code's mirror-image branches are told apart by a `Side`.
 */
module RbShape {

  datatype Side = Left | Right {
    function Other(): Side {
      if this == Left then Right else Left
    }
  }

  /* The address of a node, or NULL. */
  type Ref = nat
  const NULL: Ref := 0

  /** A node; in memory the parent link and the colour share one word. */
  datatype Cell = Cell(left: Ref, right: Ref, parent: Ref, red: bool) {
    function Child(side: Side): Ref {
      if side == Left then left else right
    }

    function SetChild(side: Side, r: Ref): Cell {
      if side == Left then this.(left := r) else this.(right := r)
    }
  }

  type Mem = map<Ref, Cell>

  datatype Tree = Nil | T(left: Tree, id: Ref, red: bool, right: Tree)

  /** A node with its child on `side` and the other one. */
  ghost function Mk(side: Side, near: Tree, id: Ref, red: bool, far: Tree): Tree {
    if side == Left then T(near, id, red, far) else T(far, id, red, near)
  }

  ghost function Kid(t: Tree, side: Side): Tree
    requires t.T?
  {
    if side == Left then t.left else t.right
  }

  /** A tree with a hole: the hole is the child on `side` of `id`, `sib` the other child. */
  datatype Ctx = Top | In(up: Ctx, id: Ref, red: bool, side: Side, sib: Tree)

  ghost function Plug(c: Ctx, t: Tree): Tree {
    match c
    case Top => t
    case In(up, id, red, side, sib) => Plug(up, Mk(side, t, id, red, sib))
  }

  ghost function CtxLen(c: Ctx): nat {
    if c.Top? then 0 else 1 + CtxLen(c.up)
  }

  // ---------------------------------------------------------------- contents

  ghost function Inorder(t: Tree): seq<Ref> {
    match t
    case Nil => []
    case T(l, id, _, r) => Inorder(l) + [id] + Inorder(r)
  }

  /** The nodes before and after the hole. */
  ghost function Before(c: Ctx): seq<Ref> {
    match c
    case Top => []
    case In(up, id, _, side, sib) => if side == Left then Before(up) else Before(up) + Inorder(sib) + [id]
  }

  ghost function After(c: Ctx): seq<Ref> {
    match c
    case Top => []
    case In(up, id, _, side, sib) => if side == Left then [id] + Inorder(sib) + After(up) else After(up)
  }

  lemma {:induction false} InorderPlug(c: Ctx, t: Tree)
    ensures Inorder(Plug(c, t)) == Before(c) + Inorder(t) + After(c)
    decreases c
  {
    match c
    case Top =>
    case In(up, id, red, side, sib) =>
      InorderPlug(up, Mk(side, t, id, red, sib));
      Regroup(Before(up), Inorder(t), [id], Inorder(sib), After(up));
      Regroup(Before(up), Inorder(sib), [id], Inorder(t), After(up));
  }

  lemma Regroup(a: seq<Ref>, b: seq<Ref>, x: seq<Ref>, c: seq<Ref>, d: seq<Ref>)
    ensures a + (b + x + c) + d == a + b + (x + c + d)
    ensures a + (b + x + c) + d == (a + b + x) + c + d
  {
  }

  ghost function Nodes(t: Tree): set<Ref> {
    match t
    case Nil => {}
    case T(l, id, _, r) => Nodes(l) + {id} + Nodes(r)
  }

  ghost function CtxNodes(c: Ctx): set<Ref> {
    match c
    case Top => {}
    case In(up, id, _, _, sib) => CtxNodes(up) + {id} + Nodes(sib)
  }

  ghost predicate Distinct(t: Tree) {
    match t
    case Nil => true
    case T(l, id, _, r) =>
      id !in Nodes(l) && id !in Nodes(r) && Nodes(l) !! Nodes(r) && Distinct(l) && Distinct(r)
  }

  ghost predicate CtxDistinct(c: Ctx) {
    match c
    case Top => true
    case In(up, id, _, _, sib) =>
      id !in Nodes(sib) && id !in CtxNodes(up) && Nodes(sib) !! CtxNodes(up) && Distinct(sib) && CtxDistinct(up)
  }

  lemma {:induction false} NodesPlug(c: Ctx, t: Tree)
    ensures Nodes(Plug(c, t)) == CtxNodes(c) + Nodes(t)
    ensures Distinct(Plug(c, t)) <==> Distinct(t) && CtxDistinct(c) && Nodes(t) !! CtxNodes(c)
    decreases c
  {
    match c
    case Top =>
    case In(up, id, red, side, sib) =>
      NodesPlug(up, Mk(side, t, id, red, sib));
  }

  lemma {:induction false} InorderNodes(t: Tree)
    ensures forall x :: x in Inorder(t) <==> x in Nodes(t)
  {
    if t.T? {
      InorderNodes(t.left);
      InorderNodes(t.right);
    }
  }

  ghost predicate Sorted(key: Ref -> int, s: seq<Ref>) {
    forall i, j :: 0 <= i < j < |s| ==> key(s[i]) < key(s[j])
  }

  // ---------------------------------------------------------------- colours

  ghost predicate IsRed(t: Tree) {
    t.T? && t.red
  }

  /** Every path down from `t` meets `h` black nodes. */
  ghost predicate Balanced(t: Tree, h: nat) {
    match t
    case Nil => h == 0
    case T(l, _, red, r) =>
      if red then Balanced(l, h) && Balanced(r, h)
      else h > 0 && Balanced(l, h - 1) && Balanced(r, h - 1)
  }

  ghost predicate NoRedRed(t: Tree) {
    match t
    case Nil => true
    case T(l, _, red, r) => (red ==> !IsRed(l) && !IsRed(r)) && NoRedRed(l) && NoRedRed(r)
  }

  /** The black heights agree when the hole is filled by a tree of black height `h`. */
  ghost predicate CtxBalanced(c: Ctx, h: nat) {
    match c
    case Top => true
    case In(up, _, red, _, sib) => Balanced(sib, h) && CtxBalanced(up, if red then h else h + 1)
  }

  /** No red node has a red child, for a hole filled by a red (or black) root. */
  ghost predicate CtxNoRedRed(c: Ctx, holeRed: bool) {
    match c
    case Top => true
    case In(up, _, red, _, sib) =>
      && (red ==> !holeRed && !IsRed(sib))
      && NoRedRed(sib) && CtxNoRedRed(up, red)
  }

  /** The root, when it is not in the hole, is black. */
  ghost predicate CtxTopBlack(c: Ctx) {
    match c
    case Top => true
    case In(up, _, red, _, _) => if up.Top? then !red else CtxTopBlack(up)
  }

  ghost predicate RedBlack(t: Tree, h: nat) {
    Balanced(t, h) && NoRedRed(t) && !IsRed(t)
  }

  ghost function TopHeight(c: Ctx, h: nat): nat {
    match c
    case Top => h
    case In(up, _, red, _, _) => TopHeight(up, if red then h else h + 1)
  }

  lemma {:induction false} ColoursPlug(c: Ctx, t: Tree, h: nat)
    requires Balanced(t, h) && NoRedRed(t) && CtxBalanced(c, h) && CtxNoRedRed(c, IsRed(t)) && CtxTopBlack(c)
    requires c.Top? ==> !IsRed(t)
    ensures RedBlack(Plug(c, t), TopHeight(c, h))
    decreases c
  {
    match c
    case Top =>
    case In(up, id, red, side, sib) =>
      ColoursPlug(up, Mk(side, t, id, red, sib), if red then h else h + 1);
  }

  /** The colours of the parts of a red-black tree. */
  lemma {:induction false} ColoursUnplug(c: Ctx, t: Tree, hh: nat) returns (h: nat)
    requires RedBlack(Plug(c, t), hh)
    ensures Balanced(t, h) && NoRedRed(t) && CtxBalanced(c, h) && CtxNoRedRed(c, IsRed(t)) && CtxTopBlack(c)
    ensures c.Top? ==> !IsRed(t)
    decreases c
  {
    match c
    case Top => h := hh;
    case In(up, id, red, side, sib) =>
      var g := ColoursUnplug(up, Mk(side, t, id, red, sib), hh);
      h := if red then g else g - 1;
  }

  lemma CtxColours(c: Ctx, h: nat, holeRed: bool)
    requires c.In?
    ensures CtxBalanced(c, h) <==> Balanced(c.sib, h) && CtxBalanced(c.up, if c.red then h else h + 1)
    ensures CtxNoRedRed(c, holeRed) <==>
            (c.red ==> !holeRed && !IsRed(c.sib)) && NoRedRed(c.sib) && CtxNoRedRed(c.up, c.red)
    ensures CtxTopBlack(c) <==> if c.up.Top? then !c.red else CtxTopBlack(c.up)
  {
  }

  lemma MkColours(side: Side, near: Tree, id: Ref, red: bool, far: Tree, h: nat)
    ensures Balanced(Mk(side, near, id, red, far), h) <==>
            if red then Balanced(near, h) && Balanced(far, h) else h > 0 && Balanced(near, h - 1) && Balanced(far, h - 1)
    ensures NoRedRed(Mk(side, near, id, red, far)) <==>
            (red ==> !IsRed(near) && !IsRed(far)) && NoRedRed(near) && NoRedRed(far)
    ensures IsRed(Mk(side, near, id, red, far)) == red
  {
  }

  lemma KidColours(t: Tree, side: Side, h: nat)
    requires t.T?
    ensures t == Mk(side, Kid(t, side), t.id, t.red, Kid(t, side.Other()))
    ensures Balanced(t, h) <==>
            if t.red then Balanced(Kid(t, side), h) && Balanced(Kid(t, side.Other()), h)
            else h > 0 && Balanced(Kid(t, side), h - 1) && Balanced(Kid(t, side.Other()), h - 1)
    ensures NoRedRed(t) <==>
            && (t.red ==> !IsRed(Kid(t, side)) && !IsRed(Kid(t, side.Other())))
            && NoRedRed(Kid(t, side)) && NoRedRed(Kid(t, side.Other()))
  {
  }

  /** A node seen from either of its children. */
  lemma FromBelow(up: Ctx, id: Ref, red: bool, side: Side, near: Tree, far: Tree)
    ensures Plug(In(up, id, red, side, far), near) == Plug(up, Mk(side, near, id, red, far))
    ensures Plug(In(up, id, red, side.Other(), near), far) == Plug(up, Mk(side, near, id, red, far))
  {
  }

  // ---------------------------------------------------------------- height

  ghost function Size(t: Tree): nat {
    match t
    case Nil => 0
    case T(l, _, _, r) => Size(l) + 1 + Size(r)
  }

  ghost function Height(t: Tree): nat {
    match t
    case Nil => 0
    case T(l, _, _, r) => 1 + if Height(l) > Height(r) then Height(l) else Height(r)
  }

  ghost function Pow2(n: nat): nat {
    if n == 0 then 1 else 2 * Pow2(n - 1)
  }

  lemma {:induction false} BlackHeightSize(t: Tree, h: nat)
    requires Balanced(t, h) && NoRedRed(t)
    ensures Size(t) + 1 >= Pow2(h)
    ensures Height(t) <= 2 * h + (if IsRed(t) then 1 else 0)
    decreases t
  {
    if t.T? {
      var g := if t.red then h else h - 1;
      BlackHeightSize(t.left, g);
      BlackHeightSize(t.right, g);
    }
  }

  lemma {:induction false} Pow2Sum(m: nat, n: nat)
    ensures Pow2(m + n) == Pow2(m) * Pow2(n)
    decreases n
  {
    if n > 0 {
      Pow2Sum(m, n - 1);
      assert Pow2(m + n) == 2 * (Pow2(m) * Pow2(n - 1)) == Pow2(m) * (2 * Pow2(n - 1));
    }
  }

  lemma {:induction false} Pow2Monotone(m: nat, n: nat)
    requires m <= n
    ensures Pow2(m) <= Pow2(n)
    decreases n
  {
    if m < n {
      Pow2Monotone(m, n - 1);
    }
  }

  /** The height is at most twice the logarithm of one more than the number of nodes. */
  lemma HeightBound(t: Tree, h: nat)
    requires RedBlack(t, h)
    ensures Pow2(Height(t)) <= (Size(t) + 1) * (Size(t) + 1)
  {
    BlackHeightSize(t, h);
    Pow2Monotone(Height(t), h + h);
    Pow2Sum(h, h);
    SquareMonotone(Pow2(h), Size(t) + 1);
  }

  lemma SquareMonotone(p: nat, n: nat)
    requires p <= n
    ensures p * p <= n * n
  {
    assert p * p <= p * n <= n * n;
  }

  // ---------------------------------------------------------------- shapes in memory

  /** The links below `n` spell out `t`, and `p` is the parent of `n`. */
  ghost predicate Links(m: Mem, t: Tree, n: Ref, p: Ref) {
    match t
    case Nil => n == NULL
    case T(l, id, red, r) =>
      && n == id && id != NULL && id in m && m[id].parent == p && m[id].red == red
      && Links(m, l, m[id].left, id) && Links(m, r, m[id].right, id)
  }

  /** The links around the hole spell out `c`: the hole holds `n`, its parent is `p`. */
  ghost predicate CtxLinks(m: Mem, c: Ctx, n: Ref, p: Ref, root: Ref) {
    match c
    case Top => p == NULL && root == n
    case In(up, id, red, side, sib) =>
      && p == id && id != NULL && id in m && m[id].red == red && m[id].Child(side) == n
      && Links(m, sib, m[id].Child(side.Other()), id)
      && CtxLinks(m, up, id, m[id].parent, root)
  }

  ghost predicate Apart(c: Ctx, t: Tree) {
    Distinct(t) && CtxDistinct(c) && Nodes(t) !! CtxNodes(c)
  }

  /** Memory holds the tree `Plug(c, t)`; `n` is the node of `t`, `p` its parent. */
  ghost predicate Whole(m: Mem, root: Ref, c: Ctx, t: Tree, n: Ref, p: Ref) {
    Links(m, t, n, p) && CtxLinks(m, c, n, p, root) && Apart(c, t)
  }

  ghost predicate Same(m: Mem, m': Mem, s: set<Ref>) {
    forall x :: x in s && x in m ==> x in m' && m'[x] == m[x]
  }

  /** Changes elsewhere leave a tree as it is. */
  lemma {:induction false} KeepLinks(m: Mem, m': Mem, t: Tree, n: Ref, p: Ref)
    requires Links(m, t, n, p) && Same(m, m', Nodes(t))
    ensures Links(m', t, n, p)
    decreases t
  {
    if t.T? {
      KeepLinks(m, m', t.left, m[t.id].left, t.id);
      KeepLinks(m, m', t.right, m[t.id].right, t.id);
    }
  }

  lemma {:induction false} KeepCtx(m: Mem, m': Mem, c: Ctx, n: Ref, p: Ref, root: Ref)
    requires CtxLinks(m, c, n, p, root) && Same(m, m', CtxNodes(c))
    ensures CtxLinks(m', c, n, p, root)
    decreases c
  {
    if c.In? {
      KeepLinks(m, m', c.sib, m[c.id].Child(c.side.Other()), c.id);
      KeepCtx(m, m', c.up, c.id, m[c.id].parent, root);
    }
  }

  // ---------------------------------------------------------------- moving the focus

  lemma FocusUp(m: Mem, root: Ref, c: Ctx, t: Tree, n: Ref, p: Ref)
    requires Whole(m, root, c, t, n, p) && c.In?
    ensures p == c.id && p != NULL && p in m && m[p].red == c.red && m[p].Child(c.side) == n
    ensures Whole(m, root, c.up, Mk(c.side, t, c.id, c.red, c.sib), p, m[p].parent)
  {
  }

  lemma FocusDown(m: Mem, root: Ref, c: Ctx, t: Tree, n: Ref, p: Ref, side: Side)
    requires Whole(m, root, c, t, n, p) && t.T?
    ensures n == t.id && n != NULL && n in m && m[n].red == t.red && m[n].parent == p
    ensures Whole(m, root, In(c, t.id, t.red, side, Kid(t, side.Other())), Kid(t, side), m[n].Child(side), n)
  {
  }

  /** What the top node of a tree shows of it. */
  lemma LinksRoot(m: Mem, t: Tree, n: Ref, p: Ref)
    requires Links(m, t, n, p)
    ensures n == NULL <==> t.Nil?
    ensures n != NULL ==> n == t.id && n in Nodes(t) && n in m && m[n].red == IsRed(t) && m[n].parent == p
  {
  }

  lemma CtxParent(m: Mem, c: Ctx, n: Ref, p: Ref, root: Ref)
    requires CtxLinks(m, c, n, p, root)
    ensures p == NULL <==> c.Top?
    ensures p != NULL ==> p in CtxNodes(c) && p in m
  {
  }

  /** The top node of a tree, its two subtrees and their links. */
  lemma Open(m: Mem, t: Tree, n: Ref, p: Ref, side: Side)
    requires Links(m, t, n, p) && t.T?
    ensures n == t.id && n != NULL && n in m && m[n].parent == p && m[n].red == t.red
    ensures Links(m, Kid(t, side), m[n].Child(side), n) && Links(m, Kid(t, side.Other()), m[n].Child(side.Other()), n)
  {
  }

  lemma OpenSets(t: Tree, side: Side)
    requires t.T?
    ensures Nodes(t) == Nodes(Kid(t, side)) + {t.id} + Nodes(Kid(t, side.Other()))
    ensures Distinct(t) <==> && t.id !in Nodes(Kid(t, side)) && t.id !in Nodes(Kid(t, side.Other()))
                             && Nodes(Kid(t, side)) !! Nodes(Kid(t, side.Other()))
                             && Distinct(Kid(t, side)) && Distinct(Kid(t, side.Other()))
  {
  }
}
