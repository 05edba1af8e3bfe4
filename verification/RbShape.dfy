/** Red-black trees as values, and the zipper that names a position inside one.

    A `Tree` is the shape of an intrusive tree: every `Bin` carries the node that sits
    there and its colour. A `Path` is the rest of the tree around a hole, innermost frame
    first, so that the fix-up loops can be followed one frame at a time. */
module RbShape {

  datatype Color = Red | Black

  /** Which child: the `_lr_` argument of the fix-up macros. */
  datatype Side = Left | Right

  function Opp(s: Side): Side { if s.Left? then Right else Left }

  datatype Tree<A> = Leaf | Bin(l: Tree<A>, x: A, c: Color, r: Tree<A>)

  /** `In(up, s, x, c, sib)`: the hole is the `s` child of `x`, whose other child is `sib`. */
  datatype Path<A> = Top | In(up: Path<A>, s: Side, x: A, c: Color, sib: Tree<A>)

  /** The tree with `x` on top, `near` on side `s` and `far` on the other side. */
  function Mk<A>(s: Side, near: Tree<A>, x: A, c: Color, far: Tree<A>): Tree<A> {
    if s.Left? then Bin(near, x, c, far) else Bin(far, x, c, near)
  }

  function Kid<A>(t: Tree<A>, s: Side): Tree<A>
    requires t.Bin?
  {
    if s.Left? then t.l else t.r
  }

  function Plug<A>(k: Path<A>, t: Tree<A>): Tree<A> {
    match k
    case Top => t
    case In(up, s, x, c, sib) => Plug(up, Mk(s, t, x, c, sib))
  }

  /** The frames of `m` put inside the hole of `k`. */
  function Append<A>(k: Path<A>, m: Path<A>): Path<A> {
    match m
    case Top => k
    case In(up, s, x, c, sib) => In(Append(k, up), s, x, c, sib)
  }

  function Length(k: Path): nat { if k.Top? then 0 else 1 + Length(k.up) }

  // ---------- In-order sequence ----------

  function Inorder<A>(t: Tree<A>): seq<A> {
    if t.Leaf? then [] else Inorder(t.l) + [t.x] + Inorder(t.r)
  }

  /** What precedes the hole in order. */
  function Before<A>(k: Path<A>): seq<A> {
    match k
    case Top => []
    case In(up, s, x, _, sib) => if s.Left? then Before(up) else Before(up) + Inorder(sib) + [x]
  }

  /** What follows the hole in order. */
  function After<A>(k: Path<A>): seq<A> {
    match k
    case Top => []
    case In(up, s, x, _, sib) => if s.Left? then [x] + Inorder(sib) + After(up) else After(up)
  }

  lemma {:induction false} InorderPlug<A>(k: Path<A>, t: Tree<A>)
    ensures Inorder(Plug(k, t)) == Before(k) + Inorder(t) + After(k)
  {
    match k
    case Top =>
    case In(up, s, x, c, sib) =>
      InorderPlug(up, Mk(s, t, x, c, sib));
  }

  /** The in-order sequence cut at the node in focus. */
  lemma {:induction false} InorderAt<A>(k: Path<A>, t: Tree<A>)
    requires t.Bin?
    ensures Inorder(Plug(k, t)) == (Before(k) + Inorder(t.l)) + [t.x] + (Inorder(t.r) + After(k))
  {
    InorderPlug(k, t);
    var b, l, r, a := Before(k), Inorder(t.l), Inorder(t.r), After(k);
    assert b + (l + [t.x] + r) + a == (b + l) + [t.x] + (r + a);
  }

  lemma {:induction false} PlugAppend<A>(k: Path<A>, m: Path<A>, t: Tree<A>)
    ensures Plug(Append(k, m), t) == Plug(k, Plug(m, t))
  {
    match m
    case Top =>
    case In(up, s, x, c, sib) => PlugAppend(k, up, Mk(s, t, x, c, sib));
  }

  // ---------- The nodes, each in one place ----------

  ghost function Nodes<A>(t: Tree<A>): set<A> {
    if t.Leaf? then {} else Nodes(t.l) + {t.x} + Nodes(t.r)
  }

  ghost function PNodes<A>(k: Path<A>): set<A> {
    if k.Top? then {} else PNodes(k.up) + {k.x} + Nodes(k.sib)
  }

  ghost predicate Dist<A>(t: Tree<A>) {
    match t
    case Leaf => true
    case Bin(l, x, _, r) => Dist(l) && Dist(r) && x !in Nodes(l) && x !in Nodes(r) && Nodes(l) !! Nodes(r)
  }

  ghost predicate PDist<A>(k: Path<A>) {
    match k
    case Top => true
    case In(up, _, x, _, sib) =>
      PDist(up) && Dist(sib) && x !in PNodes(up) && x !in Nodes(sib) && PNodes(up) !! Nodes(sib)
  }

  /** Every node occurs once in the tree `Plug(k, t)`, stated for the two parts. */
  ghost predicate ZDist<A>(k: Path<A>, t: Tree<A>) {
    Dist(t) && PDist(k) && Nodes(t) !! PNodes(k)
  }

  lemma {:induction false} NodesPlug<A>(k: Path<A>, t: Tree<A>)
    ensures Nodes(Plug(k, t)) == Nodes(t) + PNodes(k)
    ensures Dist(Plug(k, t)) <==> ZDist(k, t)
  {
    match k
    case Top =>
    case In(up, s, x, c, sib) => NodesPlug(up, Mk(s, t, x, c, sib));
  }

  // ---------- Rotation ----------

  /** The two sides of a rotation hold the same nodes, each once. */
  lemma {:induction false} Rotation<A>(a: Tree<A>, x: A, c: Color, b: Tree<A>, y: A, d: Color, e: Tree<A>)
    ensures var t, t' := Bin(a, x, c, Bin(b, y, d, e)), Bin(Bin(a, x, c, b), y, d, e);
      Nodes(t) == Nodes(t') && (Dist(t) <==> Dist(t'))
  {
    assert Nodes(Bin(b, y, d, e)) == Nodes(b) + {y} + Nodes(e);
    assert Nodes(Bin(a, x, c, b)) == Nodes(a) + {x} + Nodes(b);
  }

  /** The two sides of a rotation have the same in-order sequence. */
  lemma {:induction false} RotationOrder<A>(a: Tree<A>, x: A, c: Color, b: Tree<A>, y: A, d: Color, e: Tree<A>)
    ensures Inorder(Bin(a, x, c, Bin(b, y, d, e))) == Inorder(Bin(Bin(a, x, c, b), y, d, e))
  {
    var p, q, r := Inorder(a) + [x], Inorder(b), [y] + Inorder(e);
    assert Inorder(Bin(a, x, c, Bin(b, y, d, e))) == p + (q + r);
    assert Inorder(Bin(Bin(a, x, c, b), y, d, e)) == (p + q) + r;
  }

  /** A path that only goes down to one side. */
  predicate Slope(m: Path, s: Side) { m.In? ==> m.s == s && Slope(m.up, s) }

  lemma {:induction false} SlopeOrder<A>(m: Path<A>, s: Side)
    requires Slope(m, s)
    ensures s.Left? ==> Before(m) == []
    ensures s.Right? ==> After(m) == []
  {
    if m.In? { SlopeOrder(m.up, s); }
  }

  // ---------- In-order sequences without repeats ----------

  ghost predicate NoDup<A>(s: seq<A>) { forall i, j :: 0 <= i < j < |s| ==> s[i] != s[j] }

  lemma NoDupJoin<A>(p: seq<A>, x: A, q: seq<A>)
    requires NoDup(p) && NoDup(q) && x !in p && x !in q && forall y :: y in p ==> y !in q
    ensures NoDup(p + [x] + q)
  {
    var s := p + [x] + q;
    assert forall i :: 0 <= i < |p| ==> s[i] == p[i] && p[i] in p;
    assert forall i :: |p| < i < |s| ==> s[i] == q[i - |p| - 1] && q[i - |p| - 1] in q;
  }

  lemma {:induction false} InorderNodes<A>(t: Tree<A>, x: A)
    ensures x in Inorder(t) <==> x in Nodes(t)
  {
    if t.Bin? { InorderNodes(t.l, x); InorderNodes(t.r, x); }
  }

  lemma {:induction false} InorderNoDup<A>(t: Tree<A>)
    requires Dist(t)
    ensures NoDup(Inorder(t))
  {
    if t.Bin? {
      var l, r := Inorder(t.l), Inorder(t.r);
      InorderNoDup(t.l); InorderNoDup(t.r);
      InorderNodes(t.l, t.x); InorderNodes(t.r, t.x);
      forall y | y in l ensures y !in r { InorderNodes(t.l, y); InorderNodes(t.r, y); }
      NoDupJoin(l, t.x, r);
    }
  }

  /** Where a segment stands in a sequence without repeats is determined. */
  lemma SameCut<A>(p: seq<A>, m: seq<A>, q: seq<A>, p': seq<A>, q': seq<A>)
    requires NoDup(p + m + q) && p + m + q == p' + m + q' && m != []
    ensures p == p' && q == q'
  {
    var s := p + m + q;
    assert s[|p|] == m[0] && s[|p'|] == m[0];
    assert |p| == |p'|;
    assert p == s[..|p|] && p' == s[..|p|];
    assert q == s[|p| + |m|..] && q' == s[|p| + |m|..];
  }

  /** Every node of a tree is at some position. */
  lemma {:induction false} Locate<A>(w: Tree<A>, n: A) returns (k: Path<A>, t: Tree<A>)
    requires n in Nodes(w)
    ensures Plug(k, t) == w && t.Bin? && t.x == n
  {
    if n == w.x {
      k, t := Top, w;
    } else {
      var s := if n in Nodes(w.l) then Left else Right;
      var m;
      m, t := Locate(Kid(w, s), n);
      k := Append(In(Top, s, w.x, w.c, Kid(w, Opp(s))), m);
      PlugAppend(In(Top, s, w.x, w.c, Kid(w, Opp(s))), m, t);
    }
  }

  // ---------- Post-order sequence ----------

  function Post<A>(t: Tree<A>): seq<A> {
    if t.Leaf? then [] else Post(t.l) + Post(t.r) + [t.x]
  }

  /** What a traversal that has finished the hole still visits around it. */
  function PostAround<A>(k: Path<A>): seq<A> {
    if k.Top? then [] else Post(k.sib) + [k.x] + PostAround(k.up)
  }

  /** Going down, to the left child or, when there is none, to the right one, leaves as much to visit. */
  lemma {:induction false} PostDown<A>(k: Path<A>, t: Tree<A>, s: Side)
    requires t.Bin? && (s.Right? ==> t.l.Leaf?)
    ensures var k', t' := In(k, s, t.x, t.c, Kid(t, Opp(s))), Kid(t, s);
      && Nodes(t') + PNodes(k') == Nodes(t) + PNodes(k)
      && Post(t') + PostAround(k') == Post(t) + PostAround(k)
  {
    var v, x := Post(Kid(t, s)), Post(Kid(t, Opp(s)));
    assert Post(t) == v + x + [t.x];
    assert v + (x + [t.x] + PostAround(k)) == v + x + [t.x] + PostAround(k);
  }

  lemma {:induction false} PostPermutation<A>(t: Tree<A>)
    ensures multiset(Post(t)) == multiset(Inorder(t))
  {
    if t.Bin? { PostPermutation(t.l); PostPermutation(t.r); }
  }

  ghost function Elems<A>(s: seq<A>): set<A> { set x | x in s }

  lemma {:induction false} PostSet<A>(t: Tree<A>)
    ensures Elems(Post(t)) == Nodes(t)
  {
    if t.Bin? {
      PostSet(t.l); PostSet(t.r);
      assert Elems(Post(t)) == Elems(Post(t.l)) + Elems(Post(t.r)) + {t.x};
    }
  }

  lemma Shift<A>(b: seq<A>, v: seq<A>, x: seq<A>, n: seq<A>, e: seq<A>)
    ensures b + (v + x + n) + e == b + v + (x + n + e)
    ensures b + (x + v + n) + e == (b + x) + v + (n + e)
  {
  }

  lemma {:induction false} PostSegment<A>(k: Path<A>, t: Tree<A>) returns (p: seq<A>, q: seq<A>)
    ensures Post(Plug(k, t)) == p + Post(t) + q
  {
    if k.Top? { return [], []; }
    var b, e := PostSegment(k.up, Mk(k.s, t, k.x, k.c, k.sib));
    var x := Post(k.sib);
    Shift(b, Post(t), x, [k.x], e);
    if k.s.Left? {
      p, q := b, x + [k.x] + e;
    } else {
      p, q := b + x, [k.x] + e;
    }
  }

  /** Everything below a node comes before it, and right before it. */
  lemma {:induction false} ChildrenFirst<A>(k: Path<A>, t: Tree<A>) returns (p: seq<A>, q: seq<A>)
    requires t.Bin?
    ensures Post(Plug(k, t)) == p + (Post(t.l) + Post(t.r)) + [t.x] + q
  {
    p, q := PostSegment(k, t);
    assert p + (Post(t.l) + Post(t.r) + [t.x]) == p + (Post(t.l) + Post(t.r)) + [t.x];
  }
}
