/** Walking a red-black tree in order, and searching it. */
module RbWalk {
  import opened RbShape
  import opened RbRotate
  import opened RbInsert

  /** Where the node of `t` stands in the order of the whole tree. */
  ghost function Rank(c: Ctx, t: Tree): nat
    requires t.T?
  {
    |Before(c)| + |Inorder(t.left)|
  }

  lemma RankIs(c: Ctx, t: Tree)
    requires t.T?
    ensures var s := Inorder(Plug(c, t)); Rank(c, t) < |s| && s[Rank(c, t)] == t.id
  {
    InorderPlug(c, t);
  }

  /** The neighbour of position `i` on `side`, or NULL. */
  ghost function Neighbour(s: seq<Ref>, i: nat, side: Side): Ref
    requires i < |s|
  {
    if side == Right then (if i + 1 < |s| then s[i + 1] else NULL) else (if i > 0 then s[i - 1] else NULL)
  }

  ghost function End(s: seq<Ref>, side: Side): Ref {
    if side == Left then First(s) else Last(s)
  }

  /** From a node, as far as possible to one side. */
  method Descend(r: RbRoot, n: Ref, side: Side, ghost c0: Ctx, ghost t0: Tree) returns (end: Ref)
    requires InMem(r.m, r.node, Plug(c0, t0)) && t0.T? && n == t0.id
    ensures end == End(Inorder(t0), side)
  {
    end := n;
    ghost var c, t := c0, t0;
    Look(r.m, r.node, c, t);
    while r.m[end].Child(side) != NULL
      invariant t.T? && end == t.id && Plug(c, t) == Plug(c0, t0)
      invariant end in r.m && r.m[end].Child(side) == NodeOf(Kid(t, side)) && (Kid(t, side).T? ==> NodeOf(Kid(t, side)) != NULL)
      invariant End(Inorder(t), side) == End(Inorder(t0), side)
      decreases t
    {
      Look(r.m, r.node, c, t);
      end := r.m[end].Child(side);
      FromBelow(c, t.id, t.red, side, Kid(t, side), Kid(t, side.Other()));
      EndBelow(t, side);
      c, t := In(c, t.id, t.red, side, Kid(t, side.Other())), Kid(t, side);
      Look(r.m, r.node, c, t);
    }
    EndBelow(t, side);
  }

  lemma EndBelow(t: Tree, side: Side)
    requires t.T?
    ensures End(Inorder(t), side) == if Kid(t, side).T? then End(Inorder(Kid(t, side)), side) else t.id
  {
    if Kid(t, side).T? {
      assert Inorder(Kid(t, side)) != [];
    }
  }

  /** The first or last node of the tree, found by walking down. */
  method Extreme(r: RbRoot, side: Side, ghost key: Ref -> int) returns (n: Ref)
    requires r.Valid(key)
    ensures n == End(Inorder(r.shape), side)
    ensures n == if side == Left then r.leftmost else r.rightmost
  {
    LinksRoot(r.m, r.shape, r.node, NULL);
    n := r.node;
    if n == NULL {
      return;
    }
    n := Descend(r, n, side, Top, r.shape);
  }

  /** The next node in order (towards `Right`), or the previous one. */
  method Next(r: RbRoot, n: Ref, side: Side, ghost c0: Ctx, ghost t0: Tree) returns (next: Ref)
    requires InMem(r.m, r.node, Plug(c0, t0)) && t0.T? && n == t0.id
    ensures Rank(c0, t0) < |Inorder(Plug(c0, t0))| && next == Neighbour(Inorder(Plug(c0, t0)), Rank(c0, t0), side)
  {
    RankIs(c0, t0);
    Look(r.m, r.node, c0, t0);
    NotOwnParent(r.m, r.node, c0, t0);
    if r.m[n].parent == n {
      return NULL;
    }
    if r.m[n].Child(side) != NULL {
      FromBelow(c0, t0.id, t0.red, side, Kid(t0, side), Kid(t0, side.Other()));
      next := Descend(r, r.m[n].Child(side), side.Other(), In(c0, t0.id, t0.red, side, Kid(t0, side.Other())), Kid(t0, side));
      BelowNeighbour(c0, t0, side);
      return;
    }
    next := Ascend(r, n, side, c0, t0);
  }

  /** Up to the first ancestor of which the node is on the near side. */
  method Ascend(r: RbRoot, n0: Ref, side: Side, ghost c0: Ctx, ghost t0: Tree) returns (parent: Ref)
    requires InMem(r.m, r.node, Plug(c0, t0)) && t0.T? && n0 == t0.id && Kid(t0, side).Nil?
    ensures Rank(c0, t0) < |Inorder(Plug(c0, t0))| && parent == Neighbour(Inorder(Plug(c0, t0)), Rank(c0, t0), side)
  {
    RankIs(c0, t0);
    var n := n0;
    ghost var c, t := c0, t0;
    Look(r.m, r.node, c, t);
    SeeChild(r.m, r.node, c, t);
    parent := r.m[n].parent;
    assert parent == ParentOf(c);
    while parent != NULL && n == r.m[parent].Child(side)
      invariant t.T? && n == t.id && parent == ParentOf(c) && Plug(c, t) == Plug(c0, t0)
      invariant c.In? ==> c.id in r.m && c.id != NULL && (n == r.m[c.id].Child(side) <==> c.side == side)
      invariant if side == Right then Rank(c0, t0) + 1 == |Before(c)| + |Inorder(t)| else Rank(c0, t0) == |Before(c)|
      decreases c
    {
      FromBelow(c.up, c.id, c.red, c.side, t, c.sib);
      c, t := c.up, Mk(c.side, t, c.id, c.red, c.sib);
      n := parent;
      Look(r.m, r.node, c, t);
      SeeChild(r.m, r.node, c, t);
      parent := r.m[n].parent;
    }
    InorderPlug(c, t);
  }

  lemma SeeChild(m: Mem, root: Ref, c: Ctx, t: Tree)
    requires InMem(m, root, Plug(c, t)) && t.T?
    ensures c.In? ==> c.id in m && c.id != NULL && m[c.id].Child(c.side) == t.id && m[c.id].Child(c.side.Other()) != t.id
  {
    if c.In? {
      Look(m, root, c.up, Mk(c.side, t, c.id, c.red, c.sib));
      SibApart(m, root, c, t);
    }
  }

  lemma NotOwnParent(m: Mem, root: Ref, c: Ctx, t: Tree)
    requires InMem(m, root, Plug(c, t)) && t.T?
    ensures t.id != ParentOf(c)
  {
    Focus(m, root, c, t);
  }

  /** The neighbour of a node that has a child on that side is the far end of that child. */
  lemma BelowNeighbour(c: Ctx, t: Tree, side: Side)
    requires t.T? && Kid(t, side).T? && Rank(c, t) < |Inorder(Plug(c, t))|
    ensures Neighbour(Inorder(Plug(c, t)), Rank(c, t), side) == End(Inorder(Kid(t, side)), side.Other())
  {
    InorderPlug(c, t);
    assert Inorder(Kid(t, side)) != [];
  }

  // ---------------------------------------------------------------- visiting every node

  /** Every node of a tree can be brought into focus. */
  lemma {:induction false} FindFocus(t: Tree, c: Ctx, i: nat) returns (c': Ctx, t': Tree)
    requires i < |Inorder(t)|
    ensures Plug(c', t') == Plug(c, t) && t'.T? && Rank(c', t') == |Before(c)| + i
    decreases t
  {
    var l := |Inorder(t.left)|;
    if i == l {
      c', t' := c, t;
    } else if i < l {
      FromBelow(c, t.id, t.red, Left, t.left, t.right);
      c', t' := FindFocus(t.left, In(c, t.id, t.red, Left, t.right), i);
    } else {
      FromBelow(c, t.id, t.red, Right, t.right, t.left);
      c', t' := FindFocus(t.right, In(c, t.id, t.red, Right, t.left), i - l - 1);
    }
  }

  /** Walking from the first node visits every node once, in increasing order of the keys. */
  method VisitAll(r: RbRoot, ghost key: Ref -> int) returns (visited: seq<Ref>)
    requires r.Valid(key)
    ensures visited == Inorder(r.shape) && Sorted(key, visited)
    ensures forall x :: x in visited <==> x in Nodes(r.shape)
  {
    ghost var s := Inorder(r.shape);
    visited := [];
    var n := r.leftmost;
    NonNull(r.m, r.node, r.shape);
    while n != NULL
      invariant |visited| <= |s| && visited == s[..|visited|]
      invariant n == if |visited| < |s| then s[|visited|] else NULL
      decreases |s| - |visited|
    {
      ghost var c, t := FindFocus(r.shape, Top, |visited|);
      RankIs(c, t);
      visited := visited + [n];
      n := Next(r, n, Right, c, t);
    }
    InorderNodes(r.shape);
  }

  lemma NonNull(m: Mem, root: Ref, t: Tree)
    requires InMem(m, root, t)
    ensures forall i :: 0 <= i < |Inorder(t)| ==> Inorder(t)[i] != NULL
  {
    NoNull(m, t, root, NULL);
    InorderNodes(t);
    forall i | 0 <= i < |Inorder(t)|
      ensures Inorder(t)[i] != NULL
    {
      assert Inorder(t)[i] in Inorder(t);
    }
  }

  /** Searches a block number: finds the node that has it, if any. */
  method Search(r: RbRoot, key: Ref -> int, k: int) returns (n: Ref)
    requires r.Valid(key) && 0 <= k < KEY_BOUND
    ensures n != NULL <==> HasKey(key, r.shape, k)
    ensures n != NULL ==> n in Nodes(r.shape) && key(n) == k
  {
    n := r.node;
    ghost var c, t := Top, r.shape;
    LinksRoot(r.m, t, r.node, NULL);
    while n != NULL
      invariant Plug(c, t) == r.shape && n == NodeOf(t) && (n != NULL <==> t.T?)
      invariant Around(key, c, k)
      decreases t
    {
      Look(r.m, r.node, c, t);
      KeyInBounds(key, c, t, r.height);
      var result := BlockCmp(k, key(n));
      if result == 0 {
        return;
      }
      var side := if result < 0 then Left else Right;
      n := r.m[n].Child(side);
      Narrow(key, c, t, side, k);
      c, t := In(c, t.id, t.red, side, Kid(t, side.Other())), Kid(t, side);
      if t.T? {
        Look(r.m, r.node, c, t);
      }
    }
    NotThere(key, c, k);
  }
}
