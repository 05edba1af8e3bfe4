/** c/src/rb_tree.c: rb_tree_remove_subtree and what it is made of. */
module RbSubtree {
  import opened RbShape
  import opened RbColor
  import opened RbHeap
  import RbInsert
  import RbDelete

  /** swap_node_with_subtree: the sibling `u` of what is cut off replaces their parent, black. */
  method SwapNodeWithSubtree(tree: RbTree, n: Node, sub: Node, ghost k: P, ghost t: T, ghost s: Side) returns (ghost m: P)
    requires Holds(tree, Plug(k, t)) && IsRB(Plug(k, t)) && t.Bin? && t.x == n && Kid(t, s).Bin? && Kid(t, s).x == sub
    modifies tree`root, Nodes(Plug(k, t))`parent, Nodes(Plug(k, t))`left, Nodes(Plug(k, t))`right, Nodes(Plug(k, t))`color
    ensures Holds(tree, Plug(m, Blk(Kid(t, s)))) && IsRB(Plug(m, Blk(Kid(t, s))))
    ensures Nodes(Plug(m, Blk(Kid(t, s)))) == Nodes(Plug(k, t)) - {n} - Nodes(Kid(t, Opp(s)))
    ensures Before(m) == Before(k) && After(m) == After(k)
    ensures Rep(Kid(t, Opp(s)), n)
  {
    ghost var u, v := Kid(t, s), Kid(t, Opp(s));
    Look(tree, k, t);
    assert allocated(Nodes(t)) && allocated(PNodes(k)) && Nodes(v) !! Nodes(u) + PNodes(k);
    SubtreeColors(k, t, s);
    var gf := n.parent;
    RbDelete.Splice(tree, n, sub, k, t, s);
    Look(tree, k, u);
    if gf == null || n.color == Red || sub.color == Red {
      Paint(tree, sub, Black, k, u);
      m := k;
    } else {
      m := RbDelete.DeleteCase(tree, sub, gf, k, u);
    }
    assert Inorder(u) == Inorder(Blk(u));
    SameAround(k, u, m, Blk(u));
  }

  lemma {:induction false} SubtreeColors(k: P, t: T, s: Side)
    requires IsRB(Plug(k, t)) && t.Bin?
    ensures k.Top? || t.c.Red? || Col(Kid(t, s)).Red? ==> IsRB(Plug(k, Blk(Kid(t, s))))
    ensures t.c.Black? && Col(Kid(t, s)).Black? ==> DeleteInv(k, Kid(t, s))
  {
    OkPlug(k, t);
    OkPlug(k, Blk(Kid(t, s)));
  }

  /** Equal sequences around equal middles. */
  lemma {:induction false} SameAround(k: P, u: T, m: P, u': T)
    requires u.Bin? && Inorder(u) == Inorder(u') && Dist(Plug(k, u)) && Inorder(Plug(k, u)) == Inorder(Plug(m, u'))
    ensures Before(m) == Before(k) && After(m) == After(k)
  {
    InorderPlug(k, u); InorderPlug(m, u'); InorderNoDup(Plug(k, u));
    SameCut(Before(k), Inorder(u), After(k), Before(m), After(m));
  }

  /** rb_tree_insert_to_most_left and _right: `n` becomes the red leaf at the `s` end of the
      subtree under `*root`. With no subtree there, only `*root` itself is set. */
  method InsertToMost(tree: RbTree, root: Node?, n: Node, s: Side, ghost k0: P, ghost t0: T)
    returns (root': Node, ghost k: P)
    requires Holds(tree, Plug(k0, t0)) && root == Root(t0) && n !in Nodes(Plug(k0, t0))
    modifies tree`root, n`parent, n`left, n`right, n`color, Nodes(Plug(k0, t0))`left, Nodes(Plug(k0, t0))`right
    ensures root == null ==> root' == n && Holds(tree, Plug(k0, t0)) && k == k0
    ensures root != null ==>
      && root' == root && k.In? && Plug(k, Leaf) == Plug(k0, t0)
      && Holds(tree, Plug(k, Bin(Leaf, n, Red, Leaf)))
      && Nodes(Plug(k, Bin(Leaf, n, Red, Leaf))) == Nodes(Plug(k0, t0)) + {n}
      && (s.Left? ==> Before(k) == Before(k0) && After(k) == Inorder(t0) + After(k0))
      && (s.Right? ==> Before(k) == Before(k0) + Inorder(t0) && After(k) == After(k0))
  {
    n.parent, n.left, n.right := null, null, null;
    n.color := Red;
    k := k0;
    if root == null { return n, k; }
    root' := root;
    ghost var t;
    k, t := DescendToMost(tree, root, n, s, k0, t0);
    NodesPlug(k, Leaf);
    RbInsert.Hang(tree, n, n.parent, s, k);
  }

  /** The loop: `n->parent` follows the way down to the last node at the `s` end. */
  method DescendToMost(tree: RbTree, root: Node, n: Node, s: Side, ghost k0: P, ghost t0: T) returns (ghost k: P, ghost t: T)
    requires Holds(tree, Plug(k0, t0)) && t0.Bin? && root == t0.x && n !in Nodes(Plug(k0, t0))
    requires n.left == null && n.right == null && n.color == Red
    modifies n`parent
    ensures Holds(tree, Plug(k0, t0)) && t.Leaf? && k.In? && k.s == s && Plug(k, t) == Plug(k0, t0) && n.parent == k.x
    ensures s.Left? ==> Before(k) == Before(k0) && After(k) == Inorder(t0) + After(k0)
    ensures s.Right? ==> Before(k) == Before(k0) + Inorder(t0) && After(k) == After(k0)
  {
    var ptr: Node? := root;
    k, t := k0, t0;
    while ptr != null
      invariant Holds(tree, Plug(k0, t0)) && Plug(k, t) == Plug(k0, t0) && ptr == Root(t)
      invariant t.Leaf? ==> k.In? && k.s == s && n.parent == k.x
      invariant s.Left? ==> Before(k) == Before(k0) && Inorder(t) + After(k) == Inorder(t0) + After(k0)
      invariant s.Right? ==> Before(k) + Inorder(t) == Before(k0) + Inorder(t0) && After(k) == After(k0)
      decreases t
    {
      Look(tree, k, t);
      n.parent := ptr;
      ptr := ptr.Child(s);
      MostOrder(k, t, s);
      k, t := In(k, s, t.x, t.c, Kid(t, Opp(s))), Kid(t, s);
    }
  }

  lemma {:induction false} MostOrder(k: P, t: T, s: Side)
    requires t.Bin?
    ensures var k', t' := In(k, s, t.x, t.c, Kid(t, Opp(s))), Kid(t, s);
      && (s.Left? ==> Inorder(t') + After(k') == Inorder(t) + After(k))
      && (s.Right? ==> Before(k') + Inorder(t') == Before(k) + Inorder(t))
  {
  }

  /** The displaced parent goes back in, next to its old place in the order. */
  method Reinsert(tree: RbTree, fa: Node, sil: Node, s: Side, ghost m: P, ghost u: T) returns (ghost w: T)
    requires Holds(tree, Plug(m, u)) && IsRB(Plug(m, u)) && u.Bin? && u.x == sil && fa !in Nodes(Plug(m, u))
    modifies tree`root, fa`parent, fa`left, fa`right, fa`color
    modifies Nodes(Plug(m, u))`parent, Nodes(Plug(m, u))`left, Nodes(Plug(m, u))`right, Nodes(Plug(m, u))`color
    ensures Holds(tree, w) && IsRB(w) && Nodes(w) == Nodes(Plug(m, u)) + {fa}
    ensures s.Left? ==> Inorder(w) == Before(m) + [fa] + (Inorder(u) + After(m))
    ensures s.Right? ==> Inorder(w) == Before(m) + Inorder(u) + [fa] + After(m)
  {
    var sil', k := InsertToMost(tree, sil, fa, s, m, u);
    ghost var leaf := Bin(Leaf, fa, Red, Leaf);
    assert InsertInv(k, leaf) by { OkPlug(k, Leaf); }
    assert Inorder(Plug(k, leaf)) == Before(k) + [fa] + After(k) by { InorderPlug(k, leaf); assert Inorder(leaf) == [fa]; }
    w := RbInsert.InsertCase(tree, fa, k, leaf);
  }

  lemma {:induction false} CutOrder(k: P)
    requires k.In?
    ensures k.s.Left? ==> Before(k.up) + [k.x] + (Inorder(Blk(k.sib)) + After(k.up)) == Before(k) + After(k)
    ensures k.s.Right? ==> Before(k.up) + Inorder(Blk(k.sib)) + [k.x] + After(k.up) == Before(k) + After(k)
  {
    assert Inorder(Blk(k.sib)) == Inorder(k.sib);
  }

  /** The parent of the cut: the sibling replaces it and takes it in again as a leaf. */
  method CutBelow(tree: RbTree, fa: Node, sil: Node, s: Side, ghost k: P, ghost t: T) returns (ghost w: T)
    requires Holds(tree, Plug(k, t)) && IsRB(Plug(k, t))
    requires k.In? && k.s == s && k.x == fa && k.sib.Bin? && k.sib.x == sil
    modifies tree`root, Nodes(Plug(k, t))`parent, Nodes(Plug(k, t))`left, Nodes(Plug(k, t))`right, Nodes(Plug(k, t))`color
    ensures Holds(tree, w) && IsRB(w) && Nodes(w) == Nodes(Plug(k, t)) - Nodes(t)
    ensures Inorder(w) == Before(k) + After(k) && Rep(t, fa)
  {
    ghost var T, u := Mk(s, t, fa, k.c, k.sib), Blk(k.sib);
    Look(tree, k, t);
    assert Kid(T, Opp(s)) == k.sib && Kid(T, Opp(Opp(s))) == t;
    ghost var m := SwapNodeWithSubtree(tree, fa, sil, k.up, T, Opp(s));
    assert allocated(Nodes(t)) && Nodes(Plug(m, u)) == PNodes(k) - {fa};
    CutOrder(k);
    w := Reinsert(tree, fa, sil, s, m, u);
  }

  /** rb_tree_remove_subtree: `t`, at `k`, is cut off and keeps its own links. The sibling is
      used without a test: with a null sibling the source dereferences null, and nothing is claimed. */
  method RemoveSubtree(tree: RbTree, sub: Node, ghost k: P, ghost t: T) returns (fault: bool, ghost w: T)
    requires Holds(tree, Plug(k, t)) && IsRB(Plug(k, t)) && t.Bin? && t.x == sub
    modifies tree`root, Nodes(Plug(k, t))`parent, Nodes(Plug(k, t))`left, Nodes(Plug(k, t))`right, Nodes(Plug(k, t))`color
    ensures fault <==> k.In? && k.sib.Leaf?
    ensures !fault ==> Holds(tree, w) && IsRB(w) && Nodes(w) == Nodes(Plug(k, t)) - Nodes(t)
    ensures !fault ==> Inorder(w) == Before(k) + After(k)
    ensures Rep(t, Head(k, null)) && Dist(t) && (k.In? ==> k.x !in Nodes(t))
  {
    Look(tree, k, t);
    var fa := sub.parent;
    fault, w := false, Leaf;
    if fa == null {
      tree.root := null;
    } else {
      var s := if sub == fa.left then Left else Right;
      assert s == k.s;
      var sil := fa.Child(Opp(s));
      if sil == null { return true, w; }
      w := CutBelow(tree, fa, sil, s, k, t);
    }
  }
}
