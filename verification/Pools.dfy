/** c/src/thread.c: threads in timeout pools, ordered by expiry time. */
module Pools {
  import opened RbShape
  import opened RbColor
  import opened RbHeap
  import opened RbInsert
  import RbDelete
  import RbSubtree

  /** `pool` holds exactly the threads of `w`: a red-black tree sorted by expiry. */
  ghost predicate Pool(pool: RbTree, w: T)
    reads pool, Nodes(w), Inorder(w)
  {
    Holds(pool, w) && IsRB(w) && Sorted(Inorder(w))
  }

  lemma SortedInsert(p: seq<Node>, x: Node, q: seq<Node>)
    requires Sorted(p + q) && Between(p, x.et, q)
    ensures Sorted(p + [x] + q)
  {
    var s, w := p + q, p + [x] + q;
    assert forall i :: 0 <= i < |p| ==> w[i] == s[i] && w[i] in p;
    assert forall i :: |p| < i < |w| ==> w[i] == s[i - 1] && w[i] in q;
  }

  lemma SortedRemove(p: seq<Node>, x: seq<Node>, q: seq<Node>)
    requires Sorted(p + x + q)
    ensures Sorted(p + q)
  {
    var s, w := p + x + q, p + q;
    assert forall i :: 0 <= i < |p| ==> w[i] == s[i];
    assert forall i :: |p| <= i < |w| ==> w[i] == s[i + |x|];
  }

  /** rb_tree_insert and rb_tree_insert_case, one after the other. */
  method Enter(th: Node, pool: RbTree, ghost w: T) returns (ghost w': T, ghost p: seq<Node>, ghost q: seq<Node>)
    requires Pool(pool, w) && th !in Nodes(w)
    modifies th`parent, th`left, th`right, th`color
    modifies pool`root, Nodes(w)`parent, Nodes(w)`left, Nodes(w)`right, Nodes(w)`color
    ensures Pool(pool, w') && Nodes(w') == Nodes(w) + {th}
    ensures Inorder(w) == p + q && Inorder(w') == p + [th] + q && Between(p, th.et, q)
  {
    assert allocated(Inorder(w)) && allocated(Nodes(w));
    ghost var k, _ := Insert(pool, th, w);
    ghost var leaf := Bin(Leaf, th, Red, Leaf);
    p, q := Before(k), After(k);
    assert InsertInv(k, leaf) by { OkPlug(k, Leaf); }
    assert Inorder(w) == p + q by { InorderPlug(k, Leaf); }
    assert Inorder(Plug(k, leaf)) == p + [th] + q by { InorderPlug(k, leaf); assert Inorder(leaf) == [th]; }
    SortedInsert(p, th, q);
    assert allocated(Inorder(Plug(k, leaf))) && allocated(p) && allocated(q);
    w' := InsertCase(pool, th, k, leaf);
  }

  /** asthread_th_add_to_pool. Among equal expiry times the order of arrival is kept. */
  method AddToPool(th: Node, pool: RbTree?, ghost w: T) returns (ret: int, ghost w': T, ghost p: seq<Node>, ghost q: seq<Node>)
    requires pool != null ==> Pool(pool, w) && th !in Nodes(w)
    modifies th`pool, th`parent, th`left, th`right, th`color
    modifies if pool == null then {} else {pool}
    modifies Nodes(w)`parent, Nodes(w)`left, Nodes(w)`right, Nodes(w)`color
    ensures ret == if pool == null || th.status.Stop? then -1 else 0
    ensures ret == -1 ==> w' == w && th.pool == old(th.pool) && (pool != null ==> Pool(pool, w))
    ensures ret == 0 ==> th.pool == pool && Pool(pool, w') && Nodes(w') == Nodes(w) + {th}
    ensures ret == 0 ==> Inorder(w) == p + q && Inorder(w') == p + [th] + q && Between(p, th.et, q)
  {
    w', p, q := w, [], [];
    if pool == null || th.status.Stop? { return -1, w', p, q; }
    th.pool := pool;
    w', p, q := Enter(th, pool, w);
    ret := 0;
  }

  /** asthread_th_del_from_pool: the thread leaves the pool its `pool` field names. */
  method DelFromPool(th: Node, ghost w: T) returns (ret: int, ghost w': T, ghost p: seq<Node>, ghost q: seq<Node>)
    requires th.pool != null ==> Pool(th.pool, w) && th in Nodes(w)
    modifies th`pool
    modifies if th.pool == null then {} else {th.pool}
    modifies Nodes(w)`parent, Nodes(w)`left, Nodes(w)`right, Nodes(w)`color
    ensures ret == if old(th.pool) == null then -1 else 0
    ensures ret == -1 ==> w' == w
    ensures ret == 0 ==> Pool(old(th.pool), w') && Nodes(w') == Nodes(w) - {th}
    ensures ret == 0 ==> Inorder(w) == p + [th] + q && Inorder(w') == p + q
    ensures th.pool == null
  {
    w', p, q := w, [], [];
    var pool := th.pool;
    if pool == null { return -1, w', p, q; }
    ghost var k, t := Locate(w, th);
    p, q := Before(k) + Inorder(t.l), Inorder(t.r) + After(k);
    InorderAt(k, t);
    assert allocated(Inorder(w));
    w' := RbDelete.Delete(pool, th, k, t);
    assert Inorder(w') == p + q;
    SortedRemove(p, [th], q);
    th.pool := null;
    ret := 0;
  }
}
