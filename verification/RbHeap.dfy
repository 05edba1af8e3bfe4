/** The intrusive tree in the heap: nodes with parent, left and right links, and what it
    means for those links to spell out a `Tree` value. */
module RbHeap {
  import opened RbShape

  /** c/src/thread.h: `as_thread_t` with its embedded index node, seen as one object. */
  datatype Status = Ready | Run | Sleep | Stop

  class Node {
    var parent: Node?
    var left: Node?
    var right: Node?
    var color: Color
    var et: int
    var pool: RbTree?
    var status: Status

    constructor ()
      ensures pool == null && status == Ready
    {
      parent, left, right, color, et, pool, status := null, null, null, Red, 0, null, Ready;
    }

    function Child(s: Side): Node?
      reads this`left, this`right
    {
      if s.Left? then left else right
    }
  }

  class RbTree {
    var root: Node?

    constructor ()
      ensures root == null
    {
      root := null;
    }
  }

  type T = Tree<Node>
  type P = Path<Node>

  function Root(t: T): Node? { if t.Leaf? then null else t.x }

  /** The node above the hole; `top` when the path is empty. */
  function Head(k: P, top: Node?): Node? { if k.Top? then top else k.x }

  /** The links below `p` spell out `t`. */
  ghost predicate Rep(t: T, p: Node?)
    reads Nodes(t)
  {
    match t
    case Leaf => true
    case Bin(l, x, c, r) =>
      && x.parent == p && x.color == c && x.left == Root(l) && x.right == Root(r)
      && Rep(l, x) && Rep(r, x)
  }

  /** The links around a hole that holds `h` spell out `k`, hanging below `top`. */
  ghost predicate PRep(k: P, h: Node?, top: Node?)
    reads PNodes(k)
  {
    match k
    case Top => true
    case In(up, s, x, c, sib) =>
      && x.Child(s) == h && x.Child(Opp(s)) == Root(sib) && x.color == c && x.parent == Head(up, top)
      && Rep(sib, x) && PRep(up, x, top)
  }

  /** The heap holds `w` under `tree`: every link, parent link and colour agrees, each node once. */
  ghost predicate Holds(tree: RbTree, w: T)
    reads tree, Nodes(w)
  {
    Dist(w) && tree.root == Root(w) && Rep(w, null)
  }

  lemma {:induction false} RepPlug(k: P, t: T, top: Node?)
    ensures Rep(Plug(k, t), top) <==> Rep(t, Head(k, top)) && PRep(k, Root(t), top)
  {
    match k
    case Top =>
    case In(up, s, x, c, sib) =>
      RepPlug(up, Mk(s, t, x, c, sib), top);
  }

  lemma {:induction false} RootPlug(k: P, t: T, t': T)
    ensures Root(Plug(k, t)) == if k.Top? then Root(t) else Root(Plug(k, t'))
  {
    if k.In? { RootPlug(k.up, Mk(k.s, t, k.x, k.c, k.sib), Mk(k.s, t', k.x, k.c, k.sib)); }
  }

  lemma {:induction false} RootAbove(k: P, t: T)
    requires k.In?
    ensures Root(Plug(k, t)) != null && Root(Plug(k, t)) in PNodes(k)
  {
    if k.up.In? { RootAbove(k.up, Mk(k.s, t, k.x, k.c, k.sib)); }
  }

  /** What the links around a position are. */
  lemma Look(tree: RbTree, k: P, t: T)
    requires Holds(tree, Plug(k, t))
    ensures Rep(t, Head(k, null)) && PRep(k, Root(t), null) && ZDist(k, t)
    ensures Nodes(Plug(k, t)) == Nodes(t) + PNodes(k)
  {
    RepPlug(k, t, null); NodesPlug(k, t);
  }

  ghost function Just(n: Node?): set<Node> { if n == null then {} else {n} }

  lemma InorderSet(t: T)
    ensures forall x: Node :: x in Inorder(t) <==> x in Nodes(t)
  {
    forall x: Node ensures x in Inorder(t) <==> x in Nodes(t) { InorderNodes(t, x); }
  }

  // ---------- Primitive heap steps ----------

  /** `n->color = c`. */
  method Paint(tree: RbTree, n: Node, c: Color, ghost k: P, ghost t: T)
    requires Holds(tree, Plug(k, t)) && t.Bin? && t.x == n
    modifies n`color
    ensures Holds(tree, Plug(k, t.(c := c))) && Nodes(Plug(k, t.(c := c))) == Nodes(Plug(k, t))
    ensures Inorder(Plug(k, t.(c := c))) == Inorder(Plug(k, t))
  {
    ghost var t' := t.(c := c);
    NodesPlug(k, t); RepPlug(k, t, null);
    n.color := c;
    RootPlug(k, t', t); NodesPlug(k, t'); RepPlug(k, t', null); InorderPlug(k, t); InorderPlug(k, t');
  }

  /** The link that leads to `was`, from its parent `fa` or from the tree, now leads to `h`. */
  method Relink(tree: RbTree, fa: Node?, was: Node, h: Node?, ghost k: P)
    requires PDist(k) && was !in PNodes(k) && PRep(k, was, null) && fa == Head(k, null)
    modifies tree`root, Just(fa)`left, Just(fa)`right
    ensures PRep(k, h, null)
    ensures tree.root == if k.Top? then h else old(tree.root)
  {
    if fa == null {
      tree.root := h;
    } else if was == fa.left {
      fa.left := h;
    } else {
      fa.right := h;
    }
  }

  /** The subtree `t` gives way to `t'`, whose links, up to its own parent link, are in place. */
  method Replant(tree: RbTree, fa: Node?, was: Node, h: Node?, ghost k: P, ghost t: T, ghost t': T)
    requires PDist(k) && PRep(k, was, null) && fa == Head(k, null) && was !in PNodes(k)
    requires tree.root == Root(Plug(k, t))
    requires Dist(t') && Nodes(t') !! PNodes(k) && Rep(t', fa) && h == Root(t')
    modifies tree`root, Just(fa)`left, Just(fa)`right
    ensures Holds(tree, Plug(k, t')) && Nodes(Plug(k, t')) == Nodes(t') + PNodes(k)
  {
    assert allocated(Nodes(t')) && allocated(PNodes(k));
    Relink(tree, fa, was, h, k);
    NodesPlug(k, t'); RepPlug(k, t', null); RootPlug(k, t', t);
  }

  /** A subtree's own parent link is the only one that names what is above it. */
  method Reparent(sub: Node?, fa: Node?, ghost u: T, ghost was: Node?)
    requires sub == Root(u) && Dist(u) && Rep(u, was)
    modifies Just(sub)`parent
    ensures Rep(u, fa)
  {
    if sub != null { sub.parent := fa; }
  }

  function RotL(t: T): T
    requires t.Bin? && t.r.Bin?
  {
    Bin(Bin(t.l, t.x, t.c, t.r.l), t.r.x, t.r.c, t.r.r)
  }

  function RotR(t: T): T
    requires t.Bin? && t.l.Bin?
  {
    Bin(t.l.l, t.l.x, t.l.c, Bin(t.l.r, t.x, t.c, t.r))
  }

  /** The links inside the rotated pair; the link from above still leads to `p`. */
  method TurnLeft(p: Node, q: Node, fa: Node?, ghost t: T)
    requires t.Bin? && t.r.Bin? && t.x == p && t.r.x == q && Dist(t) && Rep(t, fa)
    modifies Nodes(t)`parent, Nodes(t)`left, Nodes(t)`right
    ensures Rep(RotL(t), fa)
  {
    ghost var a, b, c := t.l, t.r.l, t.r.r;
    assert Dist(t.r) && Rep(t.r, p);
    assert Dist(b) && Rep(b, q) && Rep(c, q);
    var y := q.left;
    if y != null { y.parent := p; }
    p.right := y;
    assert Rep(a, p) && Rep(b, p) && Rep(c, q);
    q.left := p;
    q.parent := fa;
    p.parent := q;
    assert Rep(a, p) && Rep(b, p) && Rep(c, q);
  }

  method TurnRight(q: Node, p: Node, fa: Node?, ghost t: T)
    requires t.Bin? && t.l.Bin? && t.x == q && t.l.x == p && Dist(t) && Rep(t, fa)
    modifies Nodes(t)`parent, Nodes(t)`left, Nodes(t)`right
    ensures Rep(RotR(t), fa)
  {
    ghost var a, b, c := t.l.l, t.l.r, t.r;
    assert Dist(t.l) && Rep(t.l, q);
    assert Dist(b) && Rep(b, p) && Rep(a, p);
    var y := p.right;
    if y != null { y.parent := q; }
    q.left := y;
    assert Rep(a, p) && Rep(b, q) && Rep(c, q);
    p.right := q;
    p.parent := fa;
    q.parent := p;
    assert Rep(a, p) && Rep(b, q) && Rep(c, q);
  }

  method RotateLeft(tree: RbTree, p: Node, ghost k: P, ghost t: T)
    requires Holds(tree, Plug(k, t)) && t.Bin? && t.x == p
    modifies tree`root, Nodes(Plug(k, t))`parent, Nodes(Plug(k, t))`left, Nodes(Plug(k, t))`right
    ensures t.r.Leaf? ==> Holds(tree, Plug(k, t))
    ensures t.r.Bin? ==>
      && Holds(tree, Plug(k, RotL(t))) && Nodes(Plug(k, RotL(t))) == Nodes(Plug(k, t))
      && Inorder(Plug(k, RotL(t))) == Inorder(Plug(k, t))
  {
    var q := p.right;
    NodesPlug(k, t); RepPlug(k, t, null);
    if q == null { return; }
    var fa := p.parent;
    ghost var t' := RotL(t);
    assert allocated(Nodes(t)) && allocated(PNodes(k));
    TurnLeft(p, q, fa, t);
    Rotation(t.l, p, t.c, t.r.l, q, t.r.c, t.r.r); RotationOrder(t.l, p, t.c, t.r.l, q, t.r.c, t.r.r);
    Replant(tree, fa, p, q, k, t, t');
    InorderPlug(k, t); InorderPlug(k, t');
  }

  /** The source reads `q->left->right` without a test: the left child must be there. */
  method RotateRight(tree: RbTree, q: Node, ghost k: P, ghost t: T)
    requires Holds(tree, Plug(k, t)) && t.Bin? && t.x == q && t.l.Bin?
    modifies tree`root, Nodes(Plug(k, t))`parent, Nodes(Plug(k, t))`left, Nodes(Plug(k, t))`right
    ensures Holds(tree, Plug(k, RotR(t))) && Nodes(Plug(k, RotR(t))) == Nodes(Plug(k, t))
    ensures Inorder(Plug(k, RotR(t))) == Inorder(Plug(k, t))
  {
    NodesPlug(k, t); RepPlug(k, t, null);
    var p := q.left;
    var fa := q.parent;
    ghost var t' := RotR(t);
    assert allocated(Nodes(t)) && allocated(PNodes(k));
    TurnRight(q, p, fa, t);
    Rotation(t.l.l, p, t.l.c, t.l.r, q, t.c, t.r); RotationOrder(t.l.l, p, t.l.c, t.l.r, q, t.c, t.r);
    Replant(tree, fa, q, p, k, t, t');
    InorderPlug(k, t); InorderPlug(k, t');
  }

  /** The tree after the far child has been rotated up, towards side `s`. */
  function Rot(s: Side, t: T): T
    requires t.Bin? && Kid(t, Opp(s)).Bin?
  {
    var u := Kid(t, Opp(s));
    Mk(s, Mk(s, Kid(t, s), t.x, t.c, Kid(u, s)), u.x, u.c, Kid(u, Opp(s)))
  }

  /** `rotate_##lr`: the rotation a fix-up macro names by its side argument. */
  method Rotate(tree: RbTree, s: Side, x: Node, ghost k: P, ghost t: T)
    requires Holds(tree, Plug(k, t)) && t.Bin? && t.x == x && Kid(t, Opp(s)).Bin?
    modifies tree`root, Nodes(Plug(k, t))`parent, Nodes(Plug(k, t))`left, Nodes(Plug(k, t))`right
    ensures Holds(tree, Plug(k, Rot(s, t))) && Nodes(Plug(k, Rot(s, t))) == Nodes(Plug(k, t))
    ensures Inorder(Plug(k, Rot(s, t))) == Inorder(Plug(k, t))
  {
    if s.Left? {
      RotateLeft(tree, x, k, t);
    } else {
      RotateRight(tree, x, k, t);
    }
  }
}
