/** c/src/rb_tree.c: rb_tree_delete_case with its four macros, and rb_tree_delete. */
module RbDelete {
  import opened RbShape
  import opened RbColor
  import opened RbHeap

  /** delete_case1: a red sibling `sb` is rotated above the parent. */
  method Case1(tree: RbTree, fa: Node, sb: Node, s: Side, ghost k: P, ghost t: T) returns (sb': Node, ghost k': P)
    requires Holds(tree, Plug(k, t)) && DeleteInv(k, t) && k.In? && k.sib.Bin? && k.sib.c.Red?
    requires s == k.s && fa == k.x && sb == k.sib.x
    modifies tree`root, Nodes(Plug(k, t))`parent, Nodes(Plug(k, t))`left, Nodes(Plug(k, t))`right, Nodes(Plug(k, t))`color
    ensures k'.In? && k'.s == s && k'.x == fa && k'.c.Red? && Length(k') == Length(k) + 1
    ensures k'.sib.Bin? && k'.sib.c.Black? && k'.sib.x == sb' && DeleteInv(k', t)
    ensures Holds(tree, Plug(k', t)) && Nodes(Plug(k', t)) == Nodes(Plug(k, t))
    ensures Inorder(Plug(k', t)) == Inorder(Plug(k, t))
  {
    DeleteCase1(k, t); DeleteSibling(k, t); Look(tree, k, t);
    ghost var u, up := k.sib, k.up;
    ghost var u' := u.(c := Black);
    Paint(tree, sb, Black, In(up, Opp(s), fa, k.c, t), u);
    Paint(tree, fa, Red, up, Mk(s, t, fa, k.c, u'));
    Rotate(tree, s, fa, up, Mk(s, t, fa, Red, u'));
    k' := In(In(up, s, sb, Black, Kid(u, Opp(s))), s, fa, Red, Kid(u, s));
    DeleteSibling(k', t);
    Look(tree, k', t);
    sb' := fa.Child(Opp(s));
  }

  /** delete_case3: the sibling's red near child is rotated above it. */
  method Case3(tree: RbTree, fa: Node, sb: Node, s: Side, ghost k: P, ghost t: T) returns (sb': Node, ghost k': P)
    requires Holds(tree, Plug(k, t)) && DeleteInv(k, t) && k.In? && k.sib.Bin? && k.sib.c.Black?
    requires Col(Kid(k.sib, s)).Red? && Col(Kid(k.sib, Opp(s))).Black?
    requires s == k.s && fa == k.x && sb == k.sib.x
    modifies tree`root, Nodes(Plug(k, t))`parent, Nodes(Plug(k, t))`left, Nodes(Plug(k, t))`right, Nodes(Plug(k, t))`color
    ensures k' == k.(sib := RbColor.Case3(s, k.sib)) && k'.sib.x == sb' && DeleteInv(k', t)
    ensures Holds(tree, Plug(k', t)) && Nodes(Plug(k', t)) == Nodes(Plug(k, t))
    ensures Inorder(Plug(k', t)) == Inorder(Plug(k, t))
  {
    DeleteCase3(k, t);
    ghost var u, q := k.sib, In(k.up, Opp(s), fa, k.c, t);
    ghost var z := Kid(u, s);
    ghost var z' := z.(c := Black);
    Look(tree, q, u);
    var near := sb.Child(s);
    if near != null {
      Paint(tree, near, Black, In(q, s, sb, Black, Kid(u, Opp(s))), z);
    }
    Paint(tree, sb, Red, q, Mk(s, z', sb, Black, Kid(u, Opp(s))));
    Rotate(tree, Opp(s), sb, q, Mk(s, z', sb, Red, Kid(u, Opp(s))));
    k' := k.(sib := RbColor.Case3(s, u));
    Look(tree, k', t);
    sb' := fa.Child(Opp(s));
  }

  /** delete_case4: the sibling takes the parent's place and colour. */
  method Case4(tree: RbTree, fa: Node, sb: Node, s: Side, ghost k: P, ghost t: T) returns (n: Node, ghost k': P)
    requires Holds(tree, Plug(k, t)) && DeleteInv(k, t) && Col(t).Black? && k.In? && k.sib.Bin? && k.sib.c.Black?
    requires Col(Kid(k.sib, Opp(s))).Red? && s == k.s && fa == k.x && sb == k.sib.x
    modifies tree`root, Nodes(Plug(k, t))`parent, Nodes(Plug(k, t))`left, Nodes(Plug(k, t))`right, Nodes(Plug(k, t))`color
    ensures n == tree.root && IsRB(Plug(k', t))
    ensures Holds(tree, Plug(k', t)) && Nodes(Plug(k', t)) == Nodes(Plug(k, t))
    ensures Inorder(Plug(k', t)) == Inorder(Plug(k, t))
  {
    DeleteCase4(k, t);
    ghost var u, up := k.sib, k.up;
    ghost var near, far := Kid(u, s), Kid(u, Opp(s));
    Look(tree, In(up, Opp(s), fa, k.c, t), u);
    Paint(tree, sb, fa.color, In(up, Opp(s), fa, k.c, t), u);
    ghost var u1 := u.(c := k.c);
    Paint(tree, fa, Black, up, Mk(s, t, fa, k.c, u1));
    var y := sb.Child(Opp(s));
    if y != null {
      Paint(tree, y, Black, In(In(up, Opp(s), fa, Black, t), Opp(s), sb, k.c, near), far);
    }
    Rotate(tree, s, fa, up, Mk(s, t, fa, Black, Mk(s, near, sb, k.c, Blk(far))));
    k' := In(In(up, s, sb, k.c, Blk(far)), s, fa, Black, near);
    n := tree.root;
  }

  /** With a black sibling: pass the shortage up, or end it. */
  method ShortStep(tree: RbTree, fa: Node, sb: Node, s: Side, ghost k: P, ghost t: T)
    returns (n: Node, fa': Node?, done: bool, ghost k': P, ghost mid: P)
    requires Holds(tree, Plug(k, t)) && DeleteInv(k, t) && Col(t).Black? && k.In? && k.sib.Bin? && k.sib.c.Black?
    requires s == k.s && fa == k.x && sb == k.sib.x
    modifies tree`root, Nodes(Plug(k, t))`parent, Nodes(Plug(k, t))`left, Nodes(Plug(k, t))`right, Nodes(Plug(k, t))`color
    ensures Holds(tree, Plug(k', Plug(mid, t))) && Nodes(Plug(k', Plug(mid, t))) == Nodes(Plug(k, t))
    ensures Inorder(Plug(k', Plug(mid, t))) == Inorder(Plug(k, t))
    ensures done ==> mid.Top? && n == tree.root && IsRB(Plug(k', t))
    ensures !done ==> mid.In? && k' == k.up && DeleteInv(k', Plug(mid, t))
    ensures !done ==> n == Root(Plug(mid, t)) && fa' == Head(k', null) && Col(Plug(mid, t)) == k.c
  {
    Look(tree, k, t);
    var inner, outer := sb.Child(s), sb.Child(Opp(s));
    ghost var u := k.sib;
    assert Rep(u, fa) && inner == Root(Kid(u, s)) && outer == Root(Kid(u, Opp(s)));
    assert Rep(Kid(u, s), sb) && Rep(Kid(u, Opp(s)), sb);
    if (inner == null || inner.color == Black) && (outer == null || outer.color == Black) {
      DeleteCase2(k, t);
      Paint(tree, sb, Red, In(k.up, Opp(s), fa, k.c, t), u);
      n, fa', done, k', mid := fa, fa.parent, false, k.up, In(Top, s, fa, k.c, u.(c := Red));
    } else {
      k', mid, done, fa' := k, Top, true, fa;
      var sb' := sb;
      if outer == null || outer.color == Black {
        sb', k' := Case3(tree, fa, sb, s, k, t);
      }
      n, k' := Case4(tree, fa, sb', s, k', t);
    }
  }

  /** One turn of the loop. */
  method DeleteStep(tree: RbTree, node: Node?, fa: Node, ghost k: P, ghost t: T)
    returns (n: Node, fa': Node?, done: bool, ghost k': P, ghost mid: P)
    requires Holds(tree, Plug(k, t)) && DeleteInv(k, t) && Col(t).Black? && k.In?
    requires node == Root(t) && fa == k.x
    modifies tree`root, Nodes(Plug(k, t))`parent, Nodes(Plug(k, t))`left, Nodes(Plug(k, t))`right, Nodes(Plug(k, t))`color
    ensures Holds(tree, Plug(k', Plug(mid, t))) && Nodes(Plug(k', Plug(mid, t))) == Nodes(Plug(k, t))
    ensures Inorder(Plug(k', Plug(mid, t))) == Inorder(Plug(k, t))
    ensures done ==> mid.Top? && n == tree.root && IsRB(Plug(k', t))
    ensures !done ==> mid.In? && n == Root(Plug(mid, t)) && fa' == Head(k', null) && DeleteInv(k', Plug(mid, t))
    ensures !done ==> Col(Plug(mid, t)).Red? || Length(k') < Length(k)
  {
    Look(tree, k, t);
    DeleteSibling(k, t);
    var s := if node == fa.left then Left else Right;
    var sb := fa.Child(Opp(s));
    k' := k;
    if sb.color == Red {
      sb, k' := Case1(tree, fa, sb, s, k, t);
    }
    n, fa', done, k', mid := ShortStep(tree, fa, sb, s, k', t);
  }

  /** `n->color = BLACK` after the loop; `Plug(inner, t0)` is the last focus. */
  method Settle(tree: RbTree, n: Node?, done: bool, ghost k: P, ghost inner: P, ghost t0: T) returns (ghost m: P)
    requires Holds(tree, Plug(k, Plug(inner, t0))) && (inner.In? || done ==> Col(t0).Black?)
    requires !done ==> DeleteInv(k, Plug(inner, t0)) && n == Root(Plug(inner, t0)) && (Col(Plug(inner, t0)).Red? || k.Top?)
    requires done ==> n == tree.root && IsRB(Plug(k, Plug(inner, t0)))
    modifies Nodes(Plug(k, Plug(inner, t0)))`color
    ensures Holds(tree, Plug(m, Blk(t0))) && IsRB(Plug(m, Blk(t0)))
    ensures Nodes(Plug(m, Blk(t0))) == Nodes(Plug(k, Plug(inner, t0)))
    ensures Inorder(Plug(m, Blk(t0))) == Inorder(Plug(k, Plug(inner, t0)))
  {
    ghost var t := Plug(inner, t0);
    Look(tree, k, t);
    if done {
      m := Append(k, inner);
      PlugAppend(k, inner, t0);
      if n != null { Paint(tree, n, Black, Top, Plug(k, t)); }
    } else {
      DeleteDone(k, t);
      if n != null { Paint(tree, n, Black, k, t); }
      m := if inner.Top? then k else Append(k, BlkPath(inner));
      if inner.In? { BlkPlug(inner, t0); PlugAppend(k, BlkPath(inner), t0); }
    }
  }

  /** rb_tree_delete_case: the short subtree `t0` ends up, black, at `m`. */
  method DeleteCase(tree: RbTree, node: Node?, father: Node?, ghost k0: P, ghost t0: T) returns (ghost m: P)
    requires Holds(tree, Plug(k0, t0)) && DeleteInv(k0, t0) && node == Root(t0) && father == Head(k0, null)
    modifies tree`root, Nodes(Plug(k0, t0))`parent, Nodes(Plug(k0, t0))`left, Nodes(Plug(k0, t0))`right, Nodes(Plug(k0, t0))`color
    ensures Holds(tree, Plug(m, Blk(t0))) && IsRB(Plug(m, Blk(t0)))
    ensures Nodes(Plug(m, Blk(t0))) == Nodes(Plug(k0, t0)) && Inorder(Plug(m, Blk(t0))) == Inorder(Plug(k0, t0))
  {
    var n, fa, done := node, father, false;
    ghost var k, inner, t := k0, Top, t0;
    ghost var mid;
    Look(tree, k, t);
    while !done && (n == null || n.color == Black) && n != tree.root
      invariant t == Plug(inner, t0) && (inner.In? || done ==> Col(t0).Black?)
      invariant Holds(tree, Plug(k, t)) && Nodes(Plug(k, t)) == Nodes(Plug(k0, t0)) && Inorder(Plug(k, t)) == Inorder(Plug(k0, t0))
      invariant !done ==> DeleteInv(k, t) && n == Root(t) && fa == Head(k, null)
      invariant done ==> n == tree.root && IsRB(Plug(k, t))
      decreases if done then 0 else if Col(t).Red? then 1 else 2 + Length(k)
    {
      Look(tree, k, t);
      n, fa, done, k, mid := DeleteStep(tree, n, fa, k, t);
      PlugAppend(mid, inner, t0);
      t, inner := Plug(mid, t), Append(mid, inner);
    }
    Look(tree, k, t);
    if k.In? { RootAbove(k, t); }
    m := Settle(tree, n, done, k, inner, t0);
  }

  // ---------- Taking a node out ----------

  /** The `s` child of `ori` takes its place; the other child goes with `ori`. */
  method Splice(tree: RbTree, ori: Node, sub: Node?, ghost k: P, ghost t: T, ghost s: Side)
    requires Holds(tree, Plug(k, t)) && t.Bin? && t.x == ori && sub == Root(Kid(t, s))
    modifies tree`root, Just(sub)`parent, Just(ori.parent)`left, Just(ori.parent)`right
    ensures Holds(tree, Plug(k, Kid(t, s)))
    ensures Nodes(Plug(k, Kid(t, s))) == Nodes(Plug(k, t)) - {ori} - Nodes(Kid(t, Opp(s)))
    ensures ori !in Nodes(Kid(t, Opp(s))) && Rep(Kid(t, Opp(s)), ori) && Dist(Kid(t, Opp(s)))
  {
    ghost var u, v := Kid(t, s), Kid(t, Opp(s));
    Look(tree, k, t);
    assert allocated(Nodes(t)) && allocated(PNodes(k));
    assert Rep(u, ori) && Rep(v, ori) && Dist(u) && Dist(v);
    assert Nodes(t) == Nodes(u) + {ori} + Nodes(v) && ori !in Nodes(u) + Nodes(v) && Nodes(u) !! Nodes(v);
    var fa := ori.parent;
    Reparent(sub, fa, u, ori);
    Replant(tree, fa, ori, sub, k, t, u);
  }

  lemma {:induction false} OneChildOrder(k: P, l: T, r: T)
    requires l.Leaf? || r.Leaf?
    ensures Inorder(Plug(k, if l.Leaf? then r else l)) == Before(k) + Inorder(l) + Inorder(r) + After(k)
  {
    InorderPlug(k, if l.Leaf? then r else l);
    assert Inorder(l) + Inorder(r) == Inorder(if l.Leaf? then r else l);
    assert Before(k) + (Inorder(l) + Inorder(r)) == Before(k) + Inorder(l) + Inorder(r);
  }

  method RemoveNodeHasOneChild(tree: RbTree, ori: Node, ghost k: P, ghost t: T) returns (ghost w: T)
    requires Holds(tree, Plug(k, t)) && IsRB(Plug(k, t)) && t.Bin? && t.x == ori && (t.l.Leaf? || t.r.Leaf?)
    modifies tree`root, Nodes(Plug(k, t))`parent, Nodes(Plug(k, t))`left, Nodes(Plug(k, t))`right, Nodes(Plug(k, t))`color
    ensures Holds(tree, w) && IsRB(w) && Nodes(w) == Nodes(Plug(k, t)) - {ori}
    ensures Inorder(w) == Before(k) + Inorder(t.l) + Inorder(t.r) + After(k)
  {
    Look(tree, k, t);
    var fa := ori.parent;
    var sub := if ori.left == null then ori.right else ori.left;
    ghost var s, u := if t.l.Leaf? then Right else Left, if t.l.Leaf? then t.r else t.l;
    Splice(tree, ori, sub, k, t, s);
    RemoveOne(k, s, ori, t.c, u);
    OneChildOrder(k, t.l, t.r);
    if ori.color == Black {
      ghost var m := DeleteCase(tree, sub, fa, k, u);
      w := Plug(m, Blk(u));
    } else {
      w := Plug(k, u);
    }
  }

  /** The least node `leaf` leaves the subtree: `rc` takes its place below `fa`. */
  method UnlinkLeast(rc: Node?, fa: Node, p: Node, ghost m: P, ghost leaf: T)
    requires m.In? && Slope(m, Left) && leaf.Bin? && leaf.l.Leaf? && rc == Root(leaf.r) && fa == m.x
    requires Dist(Plug(m, leaf)) && Rep(Plug(m, leaf), p)
    modifies Just(rc)`parent, fa`left
    ensures Rep(Plug(m, leaf.r), p) && Dist(Plug(m, leaf.r))
    ensures Nodes(Plug(m, leaf.r)) == Nodes(Plug(m, leaf)) - {leaf.x}
  {
    NodesPlug(m, leaf); RepPlug(m, leaf, p); NodesPlug(m, leaf.r);
    if rc != null { rc.parent := fa; }
    fa.left := rc;
    RepPlug(m, leaf.r, p);
  }

  /** `leaf` leaves the right subtree of `n` and becomes the top of what remains of it. */
  method LiftLeast(n: Node, leaf: Node, ghost r: T, ghost m: P, ghost lt: T) returns (rc: Node?, fa: Node)
    requires r == Plug(m, lt) && Slope(m, Left) && lt.Bin? && lt.l.Leaf? && lt.x == leaf
    requires Dist(r) && Rep(r, n) && n.right == Root(r) && n !in Nodes(r)
    modifies Nodes(r)`parent, Nodes(r)`left, Nodes(r)`right
    ensures rc == Root(lt.r) && fa == Head(m, leaf)
    ensures leaf.right == Root(Plug(m, lt.r)) && Rep(Plug(m, lt.r), leaf)
    ensures Dist(Plug(m, lt.r)) && Nodes(Plug(m, lt.r)) == Nodes(r) - {leaf}
  {
    RepPlug(m, lt, n); NodesPlug(m, lt);
    rc, fa := leaf.right, leaf.parent;
    if fa == n {
      fa := leaf;
    } else {
      UnlinkLeast(rc, fa, n, m, lt);
      RootPlug(m, lt, lt.r);
      leaf.right := n.right;
      n.right.parent := leaf;
    }
  }

  /** `leaf` takes over the parent, colour and left subtree of `n`. */
  method TakePlace(n: Node, leaf: Node, ghost l: T, ghost r: T)
    requires l.Bin? && Rep(l, n) && Rep(r, leaf) && n.left == Root(l) && leaf.right == Root(r)
    requires Dist(Bin(l, leaf, n.color, r)) && n !in Nodes(l) && n != leaf
    modifies leaf`parent, leaf`color, leaf`left, l.x`parent
    ensures Rep(Bin(l, leaf, n.color, r), n.parent)
  {
    assert Dist(l);
    leaf.parent, leaf.color, leaf.left := n.parent, n.color, n.left;
    n.left.parent := leaf;
    assert Rep(l.l, l.x) && Rep(l.r, l.x);
  }

  /** The links of swap_node_with_leaf below the place of `n`. */
  method SwapBelow(n: Node, leaf: Node, ghost t: T, ghost m: P, ghost lt: T) returns (rc: Node?, fa: Node)
    requires t.Bin? && t.x == n && t.l.Bin? && t.r == Plug(m, lt) && Dist(t) && Rep(t, n.parent)
    requires Slope(m, Left) && lt.Bin? && lt.l.Leaf? && lt.x == leaf
    modifies Nodes(t)`parent, Nodes(t)`left, Nodes(t)`right, Nodes(t)`color
    ensures rc == Root(lt.r) && fa == Head(m, leaf)
    ensures var t' := Bin(t.l, leaf, t.c, Plug(m, lt.r));
      Rep(t', old(n.parent)) && Dist(t') && Nodes(t') == Nodes(t) - {n}
  {
    ghost var r' := Plug(m, lt.r);
    assert allocated(Nodes(t));
    assert Rep(t.l, n) && Rep(t.r, n) && Dist(t.r);
    NodesPlug(m, lt);
    rc, fa := LiftLeast(n, leaf, t.r, m, lt);
    TakePlace(n, leaf, t.l, r');
  }

  /** All the links of swap_node_with_leaf: `leaf` takes the place and colour of `n`. */
  method SwapLinks(tree: RbTree, n: Node, leaf: Node, ghost k: P, ghost t: T, ghost m: P, ghost lt: T)
    returns (rc: Node?, fa: Node)
    requires Holds(tree, Plug(k, t)) && t.Bin? && t.x == n && t.l.Bin? && t.r == Plug(m, lt)
    requires Slope(m, Left) && lt.Bin? && lt.l.Leaf? && lt.x == leaf
    modifies tree`root, Nodes(Plug(k, t))`parent, Nodes(Plug(k, t))`left, Nodes(Plug(k, t))`right, Nodes(Plug(k, t))`color
    ensures Holds(tree, Plug(k, Bin(t.l, leaf, t.c, Plug(m, lt.r)))) && rc == Root(lt.r) && fa == Head(m, leaf)
    ensures Nodes(Plug(k, Bin(t.l, leaf, t.c, Plug(m, lt.r)))) == Nodes(Plug(k, t)) - {n}
  {
    ghost var t' := Bin(t.l, leaf, t.c, Plug(m, lt.r));
    Look(tree, k, t);
    assert allocated(Nodes(t)) && allocated(PNodes(k));
    var gf := n.parent;
    rc, fa := SwapBelow(n, leaf, t, m, lt);
    Replant(tree, gf, n, leaf, k, t, t');
  }

  method SwapNodeWithLeaf(tree: RbTree, n: Node, leaf: Node, ghost k: P, ghost t: T, ghost m: P, ghost lt: T)
    returns (ghost w: T)
    requires Holds(tree, Plug(k, t)) && IsRB(Plug(k, t)) && t.Bin? && t.x == n && t.l.Bin? && t.r == Plug(m, lt)
    requires Slope(m, Left) && lt.Bin? && lt.l.Leaf? && lt.x == leaf
    modifies tree`root, Nodes(Plug(k, t))`parent, Nodes(Plug(k, t))`left, Nodes(Plug(k, t))`right, Nodes(Plug(k, t))`color
    ensures Holds(tree, w) && IsRB(w) && Nodes(w) == Nodes(Plug(k, t)) - {n}
    ensures Inorder(w) == Before(k) + Inorder(t.l) + Inorder(t.r) + After(k)
  {
    ghost var u, k' := lt.r, Append(In(k, Right, leaf, t.c, t.l), m);
    SwapColors(k, t, m, leaf, lt.c, u);
    SwapOrder(k, t, m, lt);
    Look(tree, k, t); RepPlug(m, lt, n); NodesPlug(m, lt);
    var color := leaf.color;
    var rc, fa := SwapLinks(tree, n, leaf, k, t, m, lt);
    w := Plug(k', u);
    if color == Black {
      ghost var m' := DeleteCase(tree, rc, fa, k', u);
      w := Plug(m', Blk(u));
    }
  }

  /** The least node of a subtree comes first in it. */
  lemma {:induction false} LeastFirst(m: P, lt: T)
    requires Slope(m, Left) && lt.Bin? && lt.l.Leaf?
    ensures Inorder(Plug(m, lt)) == [lt.x] + Inorder(Plug(m, lt.r))
  {
    SlopeOrder(m, Left);
    InorderPlug(m, lt); InorderPlug(m, lt.r);
    assert Inorder(lt) == [lt.x] + Inorder(lt.r);
  }

  lemma {:induction false} SwapOrder(k: P, t: T, m: P, lt: T)
    requires t.Bin? && t.r == Plug(m, lt) && Slope(m, Left) && lt.Bin? && lt.l.Leaf?
    ensures Inorder(Plug(k, Bin(t.l, lt.x, t.c, Plug(m, lt.r)))) == Before(k) + Inorder(t.l) + Inorder(t.r) + After(k)
  {
    LeastFirst(m, lt);
    var t' := Bin(t.l, lt.x, t.c, Plug(m, lt.r));
    InorderPlug(k, t');
    assert Inorder(t') == Inorder(t.l) + Inorder(t.r);
    assert Before(k) + (Inorder(t.l) + Inorder(t.r)) == Before(k) + Inorder(t.l) + Inorder(t.r);
  }

  /** The leftmost node of a subtree, where it is and what hangs below it. */
  method Least(top: Node, p: Node, ghost r: T) returns (leaf: Node, ghost m: P, ghost lt: T)
    requires r.Bin? && r.x == top && Rep(r, p)
    ensures r == Plug(m, lt) && Slope(m, Left) && lt.Bin? && lt.l.Leaf? && lt.x == leaf
  {
    leaf, m, lt := top, Top, r;
    while leaf.left != null
      invariant r == Plug(m, lt) && Slope(m, Left) && lt.Bin? && lt.x == leaf && Rep(lt, Head(m, p))
      decreases lt
    {
      leaf, m, lt := leaf.left, In(m, Left, lt.x, lt.c, lt.r), lt.l;
    }
  }

  /** rb_tree_delete: exactly `n` goes, wherever it was. */
  method Delete(tree: RbTree, n: Node, ghost k: P, ghost t: T) returns (ghost w: T)
    requires Holds(tree, Plug(k, t)) && IsRB(Plug(k, t)) && t.Bin? && t.x == n
    modifies tree`root, Nodes(Plug(k, t))`parent, Nodes(Plug(k, t))`left, Nodes(Plug(k, t))`right, Nodes(Plug(k, t))`color
    ensures Holds(tree, w) && IsRB(w) && Nodes(w) == Nodes(Plug(k, t)) - {n}
    ensures Inorder(w) == Before(k) + Inorder(t.l) + Inorder(t.r) + After(k)
  {
    Look(tree, k, t);
    assert allocated(Nodes(Plug(k, t)));
    if n.left == null || n.right == null {
      w := RemoveNodeHasOneChild(tree, n, k, t);
    } else {
      ghost var m, lt;
      var leaf;
      leaf, m, lt := Least(n.right, n, t.r);
      w := SwapNodeWithLeaf(tree, n, leaf, k, t, m, lt);
    }
  }
}
