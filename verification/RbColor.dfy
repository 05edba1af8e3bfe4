/** The colour and black-height discipline, for whole trees and for trees with a hole, and
    the value-level content of every fix-up step. */
module RbColor {
  import opened RbShape
  import opened Powers

  function Col(t: Tree): Color { if t.Leaf? then Black else t.c }

  function W(c: Color): nat { if c.Black? then 1 else 0 }

  /** Black nodes on the leftmost way down. */
  function Bh(t: Tree): nat { if t.Leaf? then 0 else Bh(t.l) + W(t.c) }

  /** No red node has a red child, and every way down meets as many black nodes. */
  ghost predicate Ok(t: Tree) {
    match t
    case Leaf => true
    case Bin(l, _, c, r) => Ok(l) && Ok(r) && Bh(l) == Bh(r) && (c.Red? ==> Col(l).Black? && Col(r).Black?)
  }

  ghost predicate IsRB(t: Tree) { Ok(t) && Col(t).Black? }

  /** A subtree of black height `h` and root colour `c` fits the hole. */
  ghost predicate POk(k: Path, h: nat, c: Color) {
    match k
    case Top => true
    case In(up, _, _, cx, sib) =>
      && Ok(sib) && Bh(sib) == h && (cx.Red? ==> c.Black? && Col(sib).Black?)
      && POk(up, h + W(cx), cx)
  }

  /** Colour of the whole tree's root when the hole is filled by colour `c`. */
  function TopCol(k: Path, c: Color): Color { if k.Top? then c else TopCol(k.up, k.c) }

  lemma {:induction false} OkPlug<A>(k: Path<A>, t: Tree<A>)
    ensures Ok(Plug(k, t)) <==> Ok(t) && POk(k, Bh(t), Col(t))
    ensures Col(Plug(k, t)) == TopCol(k, Col(t))
  {
    match k
    case Top =>
    case In(up, s, x, c, sib) =>
      var u := Mk(s, t, x, c, sib);
      OkPlug(up, u);
      if Ok(u) { assert Bh(u) == Bh(t) + W(c); }
  }

  // ---------- Insert fix-up ----------

  /** The one defect left: the red focus may have a red parent. */
  ghost predicate InsertInv(k: Path, t: Tree) {
    t.Bin? && t.c.Red? && Ok(t) && POk(k, Bh(t), Black) && TopCol(k, Black).Black?
  }

  /** When the loop stops, blackening the root leaves a red-black tree. */
  lemma InsertDone<A>(k: Path<A>, t: Tree<A>)
    requires InsertInv(k, t) && (k.In? ==> k.c.Black?)
    ensures IsRB(if k.Top? then t.(c := Black) else Plug(k, t))
  {
    OkPlug(k, t);
  }

  /** Red uncle: the defect moves up two levels. */
  lemma InsertRecolor<A>(k: Path<A>, t: Tree<A>)
    requires InsertInv(k, t) && k.In? && k.c.Red? && k.up.In? && Col(k.up.sib).Red?
    ensures k.up.c.Black?
    ensures var g := k.up;
      InsertInv(g.up, Mk(g.s, Mk(k.s, t, k.x, Black, k.sib), g.x, Red, g.sib.(c := Black)))
  {
    var g := k.up;
    assert POk(g, Bh(t), Red) && TopCol(g, Red).Black?;
    assert Ok(Mk(k.s, t, k.x, Black, k.sib));
  }

  /** Black uncle, outer grandchild: one rotation at the grandparent ends the repair. */
  lemma InsertRotate<A>(k: Path<A>, t: Tree<A>)
    requires InsertInv(k, t) && k.In? && k.c.Red? && k.up.In? && Col(k.up.sib).Black? && k.s == k.up.s
    ensures k.up.c.Black?
    ensures var g := k.up;
      InsertInv(In(g.up, k.s, k.x, Black, Mk(g.s, k.sib, g.x, Red, g.sib)), t)
  {
    var g := k.up;
    assert POk(g, Bh(t), Red) && TopCol(g, Red).Black?;
    assert Ok(Mk(g.s, k.sib, g.x, Red, g.sib));
  }

  /** Inner grandchild: the first rotation makes it the outer case. */
  lemma InsertInner<A>(k: Path<A>, t: Tree<A>)
    requires InsertInv(k, t) && k.In? && k.c.Red? && k.up.In? && k.s != k.up.s
    ensures var g := k.up;
      InsertInv(In(g, g.s, t.x, Red, Kid(t, k.s)), Mk(g.s, k.sib, k.x, Red, Kid(t, g.s)))
  {
    var g := k.up;
    assert POk(g, Bh(t), Red) && TopCol(g, Red).Black?;
    assert Bh(Kid(t, g.s)) == Bh(t) == Bh(Kid(t, k.s));
  }

  // ---------- Delete fix-up ----------

  function Blk<A>(t: Tree<A>): Tree<A> { if t.Leaf? then t else t.(c := Black) }

  /** The one defect left: the focus is a black node short, and may be red over red. */
  ghost predicate DeleteInv(k: Path, t: Tree) {
    Ok(Blk(t)) && POk(k, Bh(t) + 1, Black) && TopCol(k, Black).Black?
  }

  /** When the loop stops, blackening the focus leaves a red-black tree. */
  lemma {:induction false} DeleteDone<A>(k: Path<A>, t: Tree<A>)
    requires DeleteInv(k, t) && (Col(t).Red? || k.Top?)
    ensures IsRB(Plug(k, Blk(t)))
  {
    OkPlug(k, Blk(t));
  }

  /** The sibling of a short subtree is a node, and so is each nephew below a red one. */
  lemma {:induction false} DeleteSibling<A>(k: Path<A>, t: Tree<A>)
    requires DeleteInv(k, t) && k.In?
    ensures k.sib.Bin? && (k.sib.c.Red? ==> k.c.Black? && Kid(k.sib, k.s).Bin?)
  {
  }

  /** Red sibling: rotated up, so that the new sibling is black and the parent red. */
  lemma {:induction false} DeleteCase1<A>(k: Path<A>, t: Tree<A>)
    requires DeleteInv(k, t) && k.In? && k.sib.Bin? && k.sib.c.Red?
    ensures var u := k.sib;
      && k.c.Black? && Col(Kid(u, k.s)).Black?
      && DeleteInv(In(In(k.up, k.s, u.x, Black, Kid(u, Opp(k.s))), k.s, k.x, Red, Kid(u, k.s)), t)
  {
    assert POk(k.up, Bh(t) + 2, k.c);
  }

  /** Black sibling with black children: made red, it moves the shortage up. */
  lemma {:induction false} DeleteCase2<A>(k: Path<A>, t: Tree<A>)
    requires DeleteInv(k, t) && Col(t).Black? && k.In? && k.sib.Bin? && k.sib.c.Black?
    requires Col(k.sib.l).Black? && Col(k.sib.r).Black?
    ensures DeleteInv(k.up, Mk(k.s, t, k.x, k.c, k.sib.(c := Red)))
  {
    assert POk(k.up, Bh(t) + 1 + W(k.c), k.c);
    assert TopCol(k.up, k.c).Black?;
    if k.up.In? { assert POk(k.up, Bh(t) + 1 + W(k.c), Black); }
  }

  /** Black sibling whose far child is black: turned so that the far child is red. */
  function Case3<A>(s: Side, u: Tree<A>): Tree<A>
    requires u.Bin? && Kid(u, s).Bin?
  {
    var z := Kid(u, s);
    Mk(s, Kid(z, s), z.x, Black, Mk(s, Kid(z, Opp(s)), u.x, Red, Kid(u, Opp(s))))
  }

  lemma {:induction false} DeleteCase3<A>(k: Path<A>, t: Tree<A>)
    requires DeleteInv(k, t) && k.In? && k.sib.Bin? && k.sib.c.Black?
    requires Col(Kid(k.sib, k.s)).Red? && Col(Kid(k.sib, Opp(k.s))).Black?
    ensures DeleteInv(k.(sib := Case3(k.s, k.sib)), t)
  {
    var u, z := k.sib, Kid(k.sib, k.s);
    assert Ok(u) && Ok(z);
    assert Ok(Mk(k.s, Kid(z, Opp(k.s)), u.x, Red, Kid(u, Opp(k.s))));
  }

  /** Black sibling with a red far child: one rotation at the parent ends the repair. */
  lemma {:induction false} DeleteCase4<A>(k: Path<A>, t: Tree<A>)
    requires DeleteInv(k, t) && Col(t).Black? && k.In? && k.sib.Bin? && k.sib.c.Black?
    requires Col(Kid(k.sib, Opp(k.s))).Red?
    ensures var u := k.sib;
      IsRB(Plug(In(In(k.up, k.s, u.x, k.c, Blk(Kid(u, Opp(k.s)))), k.s, k.x, Black, Kid(u, k.s)), t))
  {
    var u := k.sib;
    var f, far := Mk(k.s, t, k.x, Black, Kid(u, k.s)), Kid(u, Opp(k.s));
    assert Ok(u) && Ok(far) && Bh(Blk(far)) == Bh(far) + 1;
    assert Ok(Blk(far)) && Ok(f) && Bh(f) == Bh(Blk(far));
    assert TopCol(k.up, k.c).Black?;
    assert POk(k.up, Bh(t) + 1 + W(k.c), k.c);
    OkPlug(k.up, Mk(k.s, f, u.x, k.c, Blk(Kid(u, Opp(k.s)))));
  }

  /** `m` with its outermost node black. */
  function BlkPath<A>(m: Path<A>): Path<A>
    requires m.In?
  {
    if m.up.Top? then m.(c := Black) else m.(up := BlkPath(m.up))
  }

  lemma {:induction false} BlkPlug<A>(m: Path<A>, t: Tree<A>)
    requires m.In?
    ensures Blk(Plug(m, t)) == Plug(BlkPath(m), t)
  {
    if m.up.In? { BlkPlug(m.up, Mk(m.s, t, m.x, m.c, m.sib)); }
  }

  /** Only colours and siblings matter, not which node sits above. */
  lemma {:induction false} POkRename<A>(k: Path<A>, y: A, m: Path<A>, h: nat, c: Color)
    requires k.In?
    ensures POk(Append(k.(x := y), m), h, c) <==> POk(Append(k, m), h, c)
    ensures TopCol(Append(k.(x := y), m), c) == TopCol(Append(k, m), c)
  {
    if m.In? { POkRename(k, y, m.up, h + W(m.c), m.c); }
  }

  /** Taking out a node with at most one child, whose other child is `u`. */
  lemma {:induction false} RemoveOne<A>(k: Path<A>, s: Side, x: A, c: Color, u: Tree<A>)
    requires IsRB(Plug(k, Mk(s, u, x, c, Leaf)))
    ensures c.Red? ==> IsRB(Plug(k, u))
    ensures c.Black? ==> DeleteInv(k, u)
  {
    var t := Mk(s, u, x, c, Leaf);
    OkPlug(k, t);
    OkPlug(k, u);
    assert Bh(t) == W(c) && Bh(u) == 0;
    if c.Red? { assert k.In? ==> TopCol(k, Red) == TopCol(k, Black); }
  }

  /** `leaf`, the least node to the right of `n`, has taken the place of `n`; `u` was below it. */
  lemma {:induction false} SwapColors<A>(k: Path<A>, t: Tree<A>, m: Path<A>, leaf: A, lc: Color, u: Tree<A>)
    requires IsRB(Plug(k, t)) && t.Bin? && t.r == Plug(m, Bin(Leaf, leaf, lc, u))
    ensures var k' := Append(In(k, Right, leaf, t.c, t.l), m);
      && Plug(k', u) == Plug(k, Bin(t.l, leaf, t.c, Plug(m, u)))
      && (lc.Red? ==> IsRB(Plug(k', u))) && (lc.Black? ==> DeleteInv(k', u))
  {
    var f := In(k, Right, t.x, t.c, t.l);
    var was, now := Append(f, m), Append(f.(x := leaf), m);
    PlugAppend(f, m, Bin(Leaf, leaf, lc, u));
    PlugAppend(f.(x := leaf), m, u);
    RemoveOne(was, Right, leaf, lc, u);
    OkPlug(was, u); OkPlug(now, u);
    POkRename(f, leaf, m, Bh(u), Col(u));
    POkRename(f, leaf, m, Bh(u) + 1, Black);
  }

  // ---------- Depth ----------

  function Height(t: Tree): nat {
    if t.Leaf? then 0 else 1 + if Height(t.l) > Height(t.r) then Height(t.l) else Height(t.r)
  }

  lemma {:induction false} PathHeight<A>(k: Path<A>, t: Tree<A>)
    ensures Length(k) + Height(t) <= Height(Plug(k, t))
  {
    if k.In? { PathHeight(k.up, Mk(k.s, t, k.x, k.c, k.sib)); }
  }

  lemma {:induction false} HeightBh(t: Tree)
    requires Ok(t)
    ensures Height(t) <= 2 * Bh(t) + (if Col(t).Red? then 1 else 0)
  {
    if t.Bin? { HeightBh(t.l); HeightBh(t.r); }
  }

  lemma {:induction false} BhSize(t: Tree)
    requires Ok(t)
    ensures Pow2(Bh(t)) <= |Inorder(t)| + 1
  {
    if t.Bin? { BhSize(t.l); BhSize(t.r); }
  }

  /** Every way down a red-black tree of n nodes meets at most 2 * log2(n + 1) of them. */
  lemma {:induction false} DescentBound<A>(k: Path<A>, t: Tree<A>)
    requires IsRB(Plug(k, t))
    ensures var n := |Inorder(Plug(k, t))|;
      Pow2(Length(k) + Height(t)) <= (n + 1) * (n + 1)
  {
    var w := Plug(k, t);
    PathHeight(k, t); HeightBh(w); BhSize(w);
    Pow2Mono(Length(k) + Height(t), Bh(w) + Bh(w));
    Pow2Add(Bh(w), Bh(w));
    SquareMono(Pow2(Bh(w)), |Inorder(w)| + 1);
  }
}
