/** c/src/thread.c: asthread_remove_timeout_threads. */
module Timeouts {
  import opened RbShape
  import opened RbColor
  import opened RbHeap
  import opened RbInsert
  import opened Pools
  import RbSubtree

  /** Expired at `now`. */
  ghost predicate Due(x: Node, now: int)
    reads x`et
  {
    x.et <= now
  }

  ghost predicate AllDue(s: seq<Node>, now: int)
    reads s`et
  {
    forall x :: x in s ==> x.et <= now
  }

  ghost predicate NoneDue(s: seq<Node>, now: int)
    reads s`et
  {
    forall x :: x in s ==> now < x.et
  }

  ghost predicate RootDue(w: T, now: int)
    reads Nodes(w)`et
  {
    w.Bin? && Due(w.x, now)
  }

  /** The walk down the right edge while the next node is due: the last node it reaches. */
  method LastDue(root: Node, now: int, ghost w: T) returns (n: Node, ghost k: P, ghost t: T)
    requires w.Bin? && w.x == root && Rep(w, null) && Due(root, now)
    ensures Plug(k, t) == w && Slope(k, Right) && t.Bin? && t.x == n && Due(n, now)
    ensures t.r.Bin? ==> !Due(t.r.x, now)
    ensures Rep(t, Head(k, null))
  {
    n, k, t := root, Top, w;
    while n.right != null && now >= n.right.et
      invariant Plug(k, t) == w && Slope(k, Right) && t.Bin? && t.x == n && Due(n, now) && Rep(t, Head(k, null))
      decreases t
    {
      n, k, t := n.right, In(k, Right, t.x, t.c, t.l), t.r;
    }
  }

  /** `pool->root = n->right`, made a tree of its own; `n` keeps the rest. */
  method Detach(pool: RbTree, n: Node, ghost k: P, ghost t: T)
    requires t.Bin? && t.x == n && ZDist(k, t) && Rep(t, Head(k, null)) && PRep(k, n, null)
    modifies pool`root, n`right, Just(n.right)`parent, Just(n.right)`color
    ensures pool.root == Root(t.r) && Rep(Blk(t.r), null)
    ensures Rep(Plug(k, t.(r := Leaf)), null)
  {
    assert Rep(t.r, n) && Rep(t.l, n) && Dist(t.r);
    pool.root := n.right;
    if pool.root != null {
      pool.root.parent := null;
      pool.root.color := Black;
    }
    n.right := null;
    RepPlug(k, t.(r := Leaf), null);
  }

  lemma {:induction false} CutRight(k: P, t: T)
    requires t.Bin? && Slope(k, Right)
    ensures Inorder(Plug(k, t)) == Inorder(Plug(k, t.(r := Leaf))) + Inorder(t.r)
    ensures Inorder(Plug(k, t.(r := Leaf))) == Before(k) + Inorder(t.l) + [t.x]
  {
    SlopeOrder(k, Right);
    InorderPlug(k, t); InorderPlug(k, t.(r := Leaf));
  }

  /** The two pieces of the split, as values. */
  lemma {:induction false} SplitParts(k: P, t: T)
    requires t.Bin? && IsRB(Plug(k, t)) && ZDist(k, t)
    ensures var r, w' := Plug(k, t.(r := Leaf)), Blk(t.r);
      && IsRB(w') && Dist(w') && Dist(r) && Nodes(r) !! Nodes(w')
      && Nodes(r) + Nodes(w') == Nodes(Plug(k, t)) && Root(r) == Root(Plug(k, t))
  {
    OkPlug(k, t); NodesPlug(k, t); NodesPlug(k, t.(r := Leaf)); RootPlug(k, t, t.(r := Leaf));
    assert Dist(t.r) && Dist(t.(r := Leaf));
    assert Nodes(Blk(t.r)) == Nodes(t.r) && Nodes(t) == Nodes(t.(r := Leaf)) + Nodes(t.r);
  }

  lemma DueUpTo(p: seq<Node>, x: Node, q: seq<Node>, now: int)
    requires Sorted(p + [x] + q) && Due(x, now)
    ensures AllDue(p + [x], now)
  {
    SortedAround(p, x, q);
  }

  lemma SortedSuffix(p: seq<Node>, q: seq<Node>)
    requires Sorted(p + q)
    ensures Sorted(q)
  {
    assert forall i :: 0 <= i < |q| ==> q[i] == (p + q)[|p| + i];
  }

  /** Root due: everything up to the last due node of the right edge leaves, in one piece whose
      root has no parent; what is to the right of that node stays, and its root is not due. */
  method SplitRoot(pool: RbTree, now: int, ghost w: T) returns (ret: Node, ghost r: T, ghost w': T)
    requires Pool(pool, w) && w.Bin? && Due(w.x, now)
    modifies pool`root, Nodes(w)`parent, Nodes(w)`right, Nodes(w)`color
    ensures Pool(pool, w') && r.Bin? && r.x == ret && Rep(r, null) && Dist(r)
    ensures Inorder(w) == Inorder(r) + Inorder(w') && Nodes(w) == Nodes(r) + Nodes(w') && Nodes(r) !! Nodes(w')
    ensures AllDue(Inorder(r), now) && !RootDue(w', now)
  {
    ghost var k, t;
    var n;
    ret := pool.root;
    assert allocated(Nodes(w)) && allocated(Inorder(w));
    n, k, t := LastDue(ret, now, w);
    Look(pool, k, t);
    r, w' := Plug(k, t.(r := Leaf)), Blk(t.r);
    SplitParts(k, t);
    CutRight(k, t);
    Detach(pool, n, k, t);
    DueUpTo(Before(k) + Inorder(t.l), n, Inorder(t.r), now);
    SortedSuffix(Inorder(r), Inorder(w'));
  }

  // ---------- Root not due ----------

  /** The first due position down the left edge, or the empty place at its end. */
  ghost function LeftDue(k: P, t: T, now: int): (r: (P, T))
    reads Nodes(t)`et
    ensures Plug(r.0, r.1) == Plug(k, t)
    ensures r.1.Bin? ==> Due(r.1.x, now)
    ensures Slope(k, Left) ==> Slope(r.0, Left)
    ensures t.Bin? && !Due(t.x, now) ==> r.0.In?
    ensures k.In? ==> r.0.In?
    decreases t
  {
    if t.Leaf? || Due(t.x, now) then (k, t) else LeftDue(In(k, Left, t.x, t.c, t.r), t.l, now)
  }

  /** The source would use a null sibling: the root is not due, and the first due node of the
      left edge has none. */
  ghost predicate Faults(w: T, now: int)
    reads Nodes(w)`et
  {
    w.Bin? && !Due(w.x, now) && var (k, t) := LeftDue(Top, w, now); t.Bin? && k.sib.Leaf?
  }

  method FirstDue(root: Node, now: int, ghost w: T) returns (ret: Node?, ghost k: P, ghost t: T)
    requires w.Bin? && w.x == root && Rep(w, null) && !Due(root, now)
    ensures (k, t) == LeftDue(Top, w, now) && ret == Root(t) && k.In? && !Due(k.x, now)
  {
    k, t := In(Top, Left, w.x, w.c, w.r), w.l;
    ret := root.left;
    while ret != null && ret.et > now
      invariant LeftDue(k, t, now) == LeftDue(Top, w, now) && ret == Root(t) && Rep(t, k.x)
      invariant k.In? && !Due(k.x, now)
      decreases t
    {
      ret, k, t := ret.left, In(k, Left, t.x, t.c, t.r), t.l;
    }
  }

  /** What is to the right of a node that is not due is not due either. */
  lemma {:induction false} RestNotDue(k: P, t: T, now: int)
    requires Slope(k, Left) && k.In? && !Due(k.x, now) && Sorted(Inorder(Plug(k, t)))
    ensures Inorder(Plug(k, t)) == Inorder(t) + After(k) && Before(k) == []
    ensures NoneDue(After(k), now) && Sorted(After(k))
  {
    SlopeOrder(k, Left);
    InorderPlug(k, t);
    var p, q := Inorder(t), Inorder(k.sib) + After(k.up);
    assert After(k) == [k.x] + q;
    assert Inorder(Plug(k, t)) == p + After(k);
    assert p + After(k) == p + [k.x] + q;
    SortedSuffix(p, After(k));
    SortedAround(p, k.x, q);
  }

  /** Cutting off a due node of the left edge, with its subtree. */
  method CutAt(pool: RbTree, sub: Node, now: int, ghost k: P, ghost r: T) returns (fault: bool, ghost w': T)
    requires Pool(pool, Plug(k, r)) && r.Bin? && r.x == sub
    requires Slope(k, Left) && k.In? && !Due(k.x, now)
    modifies pool`root, Nodes(Plug(k, r))`parent, Nodes(Plug(k, r))`left, Nodes(Plug(k, r))`right, Nodes(Plug(k, r))`color
    ensures fault <==> k.sib.Leaf?
    ensures !fault ==> Pool(pool, w') && Inorder(w') == After(k) && Nodes(w') == PNodes(k)
    ensures Dist(r) && Nodes(r) !! PNodes(k) && sub.parent == k.x && Rep(r, k.x)
  {
    Look(pool, k, r);
    assert allocated(Inorder(Plug(k, r)));
    fault, w' := RbSubtree.RemoveSubtree(pool, sub, k, r);
    RestNotDue(k, r, now);
  }

  /** Root not due: the subtree at the first due node of the left edge leaves. Its root keeps
      its parent link, which still leads into the pool. */
  method CutLeft(pool: RbTree, now: int, ghost w: T) returns (fault: bool, ret: Node?, ghost r: T, ghost w': T)
    requires Pool(pool, w) && w.Bin? && !Due(w.x, now)
    modifies pool`root, Nodes(w)`parent, Nodes(w)`left, Nodes(w)`right, Nodes(w)`color
    ensures fault <==> Faults(w, now)
    ensures !fault ==> Pool(pool, w') && ret == Root(r) && Dist(r)
    ensures !fault ==> Inorder(w) == Inorder(r) + Inorder(w') && Nodes(w) == Nodes(r) + Nodes(w') && Nodes(r) !! Nodes(w')
    ensures !fault ==> NoneDue(Inorder(w'), now)
    ensures !fault && r.Bin? ==> Due(r.x, now) && r.x.parent in Nodes(w') && Rep(r, r.x.parent)
  {
    assert allocated(Nodes(w)) && allocated(Inorder(w));
    ghost var k;
    ret, k, r := FirstDue(pool.root, now, w);
    fault, w' := false, w;
    RestNotDue(k, r, now);
    NodesPlug(k, r);
    if ret == null {
      assert Inorder(w) == After(k);
    } else {
      assert allocated(After(k)) && k.x in PNodes(k);
      fault, w' := CutAt(pool, ret, now, k, r);
    }
  }

  // ---------- The whole call ----------

  /** asthread_remove_timeout_threads: the pool is cut into a returned front `r` and a kept back `w'`. */
  method RemoveTimeoutThreads(pool: RbTree, now: int, ghost w: T) returns (fault: bool, ret: Node?, ghost r: T, ghost w': T)
    requires Pool(pool, w)
    modifies pool`root, Nodes(w)`parent, Nodes(w)`left, Nodes(w)`right, Nodes(w)`color
    ensures fault <==> Faults(w, now)
    ensures !fault ==> Pool(pool, w') && ret == Root(r) && Dist(r)
    ensures !fault ==> Inorder(w) == Inorder(r) + Inorder(w') && Nodes(w) == Nodes(r) + Nodes(w') && Nodes(r) !! Nodes(w')
    ensures !fault ==> (ret != null <==> exists x :: x in Inorder(w) && x.et <= now)
    ensures RootDue(w, now) ==> AllDue(Inorder(r), now) && Rep(r, null) && !RootDue(w', now)
    ensures !fault && !RootDue(w, now) ==> NoneDue(Inorder(w'), now)
    ensures !fault && !RootDue(w, now) && r.Bin? ==> Due(r.x, now) && r.x.parent in Nodes(w') && Rep(r, r.x.parent)
  {
    fault, ret, r, w' := false, null, Leaf, w;
    if pool.root == null { return; }
    if now >= pool.root.et {
      assert w.x in Inorder(w);
      ret, r, w' := SplitRoot(pool, now, w);
    } else {
      fault, ret, r, w' := CutLeft(pool, now, w);
      assert !fault && r.Bin? ==> r.x in Inorder(r) && r.x in Inorder(w);
    }
  }

  /** Only a lone red leaf whose parent has no other child makes the call fault. */
  lemma {:induction false} FaultShape(w: T, now: int)
    requires IsRB(w) && Faults(w, now)
    ensures var (k, t) := LeftDue(Top, w, now); t == Bin(Leaf, t.x, Red, Leaf) && k.c.Black?
  {
    var (k, t) := LeftDue(Top, w, now);
    OkPlug(k, t);
    assert Bh(t) == 0;
  }

  /** Two threads are enough: the earlier one below the later one, and only it due. */
  lemma {:induction false} TwoThreadsFault(a: Node, b: Node, now: int)
    requires a.et <= now < b.et
    ensures var w := Bin(Bin(Leaf, a, Red, Leaf), b, Black, Leaf);
      IsRB(w) && Sorted(Inorder(w)) && Faults(w, now)
  {
    var w := Bin(Bin(Leaf, a, Red, Leaf), b, Black, Leaf);
    assert Inorder(w) == [a, b] by { assert Inorder(w.l) == [a]; }
    assert Col(w.l.l).Black? && Col(w.l.r).Black? && Ok(w.l);
    assert LeftDue(In(Top, Left, b, Black, Leaf), w.l, now) == (In(Top, Left, b, Black, Leaf), w.l);
  }
}
