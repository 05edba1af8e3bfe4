/** c/src/rb_tree.c: rb_tree_insert_case, and the insertion descents. */
module RbInsert {
  import opened RbShape
  import opened RbColor
  import opened RbHeap
  import opened Powers

  /** Red uncle: recolour and go on at the grandparent. */
  method Recolor(tree: RbTree, fa: Node, uc: Node, ghost k: P, ghost t: T) returns (gf: Node, ghost k': P, ghost t': T)
    requires Holds(tree, Plug(k, t)) && InsertInv(k, t)
    requires k.In? && k.c.Red? && k.up.In? && k.up.sib.Bin? && k.up.sib.c.Red?
    requires fa == k.x && uc == k.up.sib.x
    modifies Nodes(Plug(k, t))`color
    ensures k' == k.up.up && t'.Bin? && t'.x == gf && InsertInv(k', t')
    ensures Holds(tree, Plug(k', t')) && Nodes(Plug(k', t')) == Nodes(Plug(k, t))
    ensures Inorder(Plug(k', t')) == Inorder(Plug(k, t))
  {
    ghost var g := k.up;
    InsertRecolor(k, t);
    Look(tree, k, t);
    ghost var f := Mk(k.s, t, k.x, Black, k.sib);
    Paint(tree, fa, Black, g, Mk(k.s, t, k.x, Red, k.sib));
    Paint(tree, uc, Black, In(g.up, Opp(g.s), g.x, Black, f), g.sib);
    gf := fa.parent;
    k', t' := g.up, Mk(g.s, f, g.x, Red, g.sib.(c := Black));
    Paint(tree, gf, Red, g.up, Mk(g.s, f, g.x, Black, g.sib.(c := Black)));
  }

  /** Inner grandchild: rotate it outwards, so that the old parent becomes the focus. */
  method TurnInner(tree: RbTree, n: Node, fa: Node, gf: Node, ghost k: P, ghost t: T)
    returns (n': Node, fa': Node, gf': Node, ghost k': P, ghost t': T)
    requires Holds(tree, Plug(k, t)) && InsertInv(k, t) && k.In? && k.c.Red? && k.up.In?
    requires t.x == n && k.x == fa && k.up.x == gf
    modifies tree`root, Nodes(Plug(k, t))`parent, Nodes(Plug(k, t))`left, Nodes(Plug(k, t))`right
    ensures k'.In? && k'.c.Red? && k'.up == k.up && k'.s == k.up.s && InsertInv(k', t')
    ensures t'.x == n' && k'.x == fa' && k'.up.x == gf'
    ensures Holds(tree, Plug(k', t')) && Nodes(Plug(k', t')) == Nodes(Plug(k, t))
    ensures Inorder(Plug(k', t')) == Inorder(Plug(k, t))
  {
    n', fa', gf', k', t' := n, fa, gf, k, t;
    ghost var g := k.up;
    Look(tree, k, t);
    if k.s != g.s { InsertInner(k, t); }
    if n == fa.right && fa == gf.left {
      RotateLeft(tree, fa, g, Bin(k.sib, fa, Red, t));
      k', t' := In(g, Left, n, Red, t.r), Bin(k.sib, fa, Red, t.l);
      Look(tree, k', t');
      n' := n.left;
      fa' := n'.parent;
      gf' := fa'.parent;
    } else if n == fa.left && fa == gf.right {
      RotateRight(tree, fa, g, Bin(t, fa, Red, k.sib));
      k', t' := In(g, Right, n, Red, t.l), Bin(t.r, fa, Red, k.sib);
      Look(tree, k', t');
      n' := n.right;
      fa' := n'.parent;
      gf' := fa'.parent;
    }
  }

  /** Outer grandchild: the parent takes the grandparent's place. */
  method TurnOuter(tree: RbTree, n: Node, fa: Node, gf: Node, ghost k: P, ghost t: T) returns (ghost k': P)
    requires Holds(tree, Plug(k, t)) && InsertInv(k, t) && k.In? && k.c.Red? && k.up.In?
    requires Col(k.up.sib).Black? && k.s == k.up.s && t.x == n && k.x == fa && k.up.x == gf
    modifies tree`root, Nodes(Plug(k, t))`parent, Nodes(Plug(k, t))`left, Nodes(Plug(k, t))`right, Nodes(Plug(k, t))`color
    ensures InsertInv(k', t) && k'.In? && k'.c.Black?
    ensures Holds(tree, Plug(k', t)) && Nodes(Plug(k', t)) == Nodes(Plug(k, t))
    ensures Inorder(Plug(k', t)) == Inorder(Plug(k, t))
  {
    ghost var g, s := k.up, k.s;
    InsertRotate(k, t);
    Look(tree, k, t);
    ghost var f := Mk(s, t, fa, Black, k.sib);
    k' := In(g.up, s, fa, Black, Mk(s, k.sib, gf, Red, g.sib));
    Paint(tree, fa, Black, g, Mk(s, t, fa, Red, k.sib));
    Paint(tree, gf, Red, g.up, Mk(s, f, gf, Black, g.sib));
    if n == fa.left {
      RotateRight(tree, gf, g.up, Bin(f, gf, Red, g.sib));
    } else {
      RotateLeft(tree, gf, g.up, Bin(g.sib, gf, Red, f));
    }
  }

  /** One turn of the loop: the red-red edge moves up, or is gone. */
  method InsertStep(tree: RbTree, node: Node, ghost k: P, ghost t: T) returns (n: Node, ghost k': P, ghost t': T)
    requires Holds(tree, Plug(k, t)) && InsertInv(k, t) && k.In? && k.c.Red? && t.x == node
    modifies tree`root, Nodes(Plug(k, t))`parent, Nodes(Plug(k, t))`left, Nodes(Plug(k, t))`right, Nodes(Plug(k, t))`color
    ensures InsertInv(k', t') && t'.x == n && (k'.In? && k'.c.Red? ==> Length(k') < Length(k))
    ensures Holds(tree, Plug(k', t')) && Nodes(Plug(k', t')) == Nodes(Plug(k, t))
    ensures Inorder(Plug(k', t')) == Inorder(Plug(k, t))
  {
    Look(tree, k, t);
    assert TopCol(k.up, Red).Black?;
    var fa := node.parent;
    var gf := fa.parent;
    var uc := if fa == gf.right then gf.left else gf.right;
    assert uc == Root(k.up.sib) && Rep(k.up.sib, gf);
    if uc != null && uc.color == Red {
      n, k', t' := Recolor(tree, fa, uc, k, t);
    } else {
      n, fa, gf, k', t' := TurnInner(tree, node, fa, gf, k, t);
      k' := TurnOuter(tree, n, fa, gf, k', t');
    }
  }

  method InsertCase(tree: RbTree, node: Node, ghost k0: P, ghost t0: T) returns (ghost w: T)
    requires Holds(tree, Plug(k0, t0)) && InsertInv(k0, t0) && t0.x == node
    modifies tree`root, Nodes(Plug(k0, t0))`parent, Nodes(Plug(k0, t0))`left, Nodes(Plug(k0, t0))`right, Nodes(Plug(k0, t0))`color
    ensures Holds(tree, w) && IsRB(w) && Nodes(w) == Nodes(Plug(k0, t0)) && Inorder(w) == Inorder(Plug(k0, t0))
  {
    ghost var k, t := k0, t0;
    var n := node;
    Look(tree, k, t);
    while n.parent != null && n.parent.color == Red
      invariant Holds(tree, Plug(k, t)) && InsertInv(k, t) && t.x == n
      invariant n.parent == Head(k, null) && (k.In? ==> k.x.color == k.c)
      invariant Nodes(Plug(k, t)) == Nodes(Plug(k0, t0)) && Inorder(Plug(k, t)) == Inorder(Plug(k0, t0))
      decreases if k.In? && k.c.Red? then Length(k) else 0
    {
      n, k, t := InsertStep(tree, n, k, t);
      Look(tree, k, t);
    }
    InsertDone(k, t);
    RootPlug(k, t, t0);
    w := Plug(k, t).(c := Black);
    Paint(tree, tree.root, Black, Top, Plug(k, t));
  }

  // ---------- Descents ----------

  ghost predicate Sorted(s: seq<Node>)
    reads s`et
  {
    forall i, j :: 0 <= i < j < |s| ==> s[i].et <= s[j].et
  }

  /** `before` may stand in front of, and `after` behind, a node that expires at `e`. */
  ghost predicate Between(before: seq<Node>, e: int, after: seq<Node>)
    reads before`et, after`et
  {
    (forall y :: y in before ==> y.et <= e) && (forall y :: y in after ==> e < y.et)
  }

  /** `*ptr = node` at an empty place below `p`. */
  method Hang(tree: RbTree, node: Node, p: Node?, s: Side, ghost k: P)
    requires Holds(tree, Plug(k, Leaf)) && node !in Nodes(Plug(k, Leaf))
    requires node.left == null && node.right == null && node.color == Red && node.parent == p == Head(k, null)
    requires k.In? ==> s == k.s
    modifies tree`root, Just(p)`left, Just(p)`right
    ensures Holds(tree, Plug(k, Bin(Leaf, node, Red, Leaf)))
    ensures Nodes(Plug(k, Bin(Leaf, node, Red, Leaf))) == Nodes(Plug(k, Leaf)) + {node}
  {
    ghost var t := Bin(Leaf, node, Red, Leaf);
    Look(tree, k, Leaf);
    if p == null {
      tree.root := node;
    } else if s.Left? {
      p.left := node;
    } else {
      p.right := node;
    }
    NodesPlug(k, t); RepPlug(k, t, null); RootPlug(k, t, Leaf);
  }

  lemma SortedAround(p: seq<Node>, x: Node, q: seq<Node>)
    requires Sorted(p + [x] + q)
    ensures forall y :: y in p ==> y.et <= x.et
    ensures forall y :: y in q ==> x.et <= y.et
  {
    var w := p + [x] + q;
    assert w[|p|] == x;
    forall y | y in p ensures y.et <= x.et { var i :| 0 <= i < |p| && p[i] == y; assert w[i] == y; }
    forall y | y in q ensures x.et <= y.et { var i :| 0 <= i < |q| && q[i] == y; assert w[|p| + 1 + i] == y; }
  }

  /** Going down keeps the bounds, because everything in between is sorted. */
  lemma {:induction false} Descend(k: P, t: T, e: int)
    requires t.Bin? && Sorted(Inorder(Plug(k, t))) && Between(Before(k), e, After(k))
    ensures e < t.x.et ==> Between(Before(k), e, After(In(k, Left, t.x, t.c, t.r)))
    ensures e >= t.x.et ==> Between(Before(In(k, Right, t.x, t.c, t.l)), e, After(k))
  {
    InorderAt(k, t);
    SortedAround(Before(k) + Inorder(t.l), t.x, Inorder(t.r) + After(k));
  }

  /** The loop of rb_tree_insert: `node->parent` follows the descent, one step a level. */
  method Seek(tree: RbTree, node: Node, ghost w: T) returns (s: Side, ghost k: P, ghost steps: nat)
    requires Holds(tree, w) && node !in Nodes(w) && node.parent == null
    modifies node`parent
    ensures Holds(tree, w) && Plug(k, Leaf) == w && steps == Length(k)
    ensures node.parent == Head(k, null) && (k.In? ==> s == k.s && k.x in Nodes(w))
    ensures Sorted(Inorder(w)) ==> Between(Before(k), node.et, After(k))
  {
    var cur := tree.root;
    ghost var t;
    s, k, t, steps := Left, Top, w, 0;
    while cur != null
      invariant Plug(k, t) == w && cur == Root(t) && Holds(tree, w) && steps == Length(k)
      invariant node.parent == Head(k, null) && (k.In? ==> s == k.s && k.x in Nodes(w))
      invariant Sorted(Inorder(w)) ==> Between(Before(k), node.et, After(k))
      decreases t
    {
      Look(tree, k, t);
      if Sorted(Inorder(w)) { Descend(k, t, node.et); }
      node.parent := cur;
      if node.et < cur.et {
        s, cur, k, t := Left, cur.left, In(k, Left, t.x, t.c, t.r), t.l;
      } else {
        s, cur, k, t := Right, cur.right, In(k, Right, t.x, t.c, t.l), t.r;
      }
      steps := steps + 1;
    }
  }

  /** rb_tree_insert: the new red leaf goes after every node that expires no later than it. */
  method Insert(tree: RbTree, node: Node, ghost w: T) returns (ghost k: P, ghost steps: nat)
    requires Holds(tree, w) && node !in Nodes(w)
    modifies tree`root, node`parent, node`left, node`right, node`color, Nodes(w)`left, Nodes(w)`right
    ensures Plug(k, Leaf) == w && Holds(tree, Plug(k, Bin(Leaf, node, Red, Leaf)))
    ensures Nodes(Plug(k, Bin(Leaf, node, Red, Leaf))) == Nodes(w) + {node}
    ensures Sorted(Inorder(w)) ==> Between(Before(k), node.et, After(k))
    ensures IsRB(w) ==> Pow2(steps) <= (|Inorder(w)| + 1) * (|Inorder(w)| + 1)
  {
    node.parent, node.left, node.right := null, null, null;
    node.color := Red;
    var s;
    s, k, steps := Seek(tree, node, w);
    assert allocated(Inorder(w)) && allocated(Before(k)) && allocated(After(k));
    if IsRB(w) { DescentBound(k, Leaf); }
    Hang(tree, node, node.parent, s, k);
  }

  /** Whatever is around the hole of `k` expires before `e` on one side and after it on the other. */
  ghost predicate Around(k: P, e: int)
    reads Before(k)`et, After(k)`et
  {
    (forall y :: y in Before(k) ==> y.et < e) && (forall y :: y in After(k) ==> e < y.et)
  }

  lemma {:induction false} FindDown(k: P, t: T, e: int, w: T)
    requires t.Bin? && Plug(k, t) == w && Sorted(Inorder(w)) && Around(k, e)
    ensures t.x in Inorder(w)
    ensures e < t.x.et ==> Around(In(k, Left, t.x, t.c, t.r), e)
    ensures e > t.x.et ==> Around(In(k, Right, t.x, t.c, t.l), e)
  {
    InorderAt(k, t);
    SortedAround(Before(k) + Inorder(t.l), t.x, Inorder(t.r) + After(k));
  }

  /** rb_tree_find, by expiry time: a node with that key, or null exactly when there is none. */
  method Find(tree: RbTree, key: int, ghost w: T) returns (n: Node?)
    requires Holds(tree, w) && Sorted(Inorder(w))
    ensures n != null ==> n in Inorder(w) && n.et == key
    ensures n == null ==> forall x :: x in Inorder(w) ==> x.et != key
  {
    assert allocated(Inorder(w));
    n := tree.root;
    ghost var k, t := Top, w;
    while n != null
      invariant Plug(k, t) == w && n == Root(t) && Rep(t, Head(k, null)) && Around(k, key) && Sorted(Inorder(w))
      decreases t
    {
      FindDown(k, t, key, w);
      if key == n.et { return; }
      if key < n.et {
        n, k, t := n.left, In(k, Left, t.x, t.c, t.r), t.l;
      } else {
        n, k, t := n.right, In(k, Right, t.x, t.c, t.l), t.r;
      }
    }
    NotFound(k, key, w);
  }

  lemma NotFound(k: P, e: int, w: T)
    requires Plug(k, Leaf) == w && Around(k, e)
    ensures forall x :: x in Inorder(w) ==> x.et != e
  {
    InorderPlug(k, Leaf);
  }
}
