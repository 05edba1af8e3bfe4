/** c/src/mem_buddy.c: a complete binary tree of log-size marks in one array. A mark m > 0 stands
    for a block of 2^(m-1) units that the allocator may hand out below that node. */
module Buddy {
  import opened Powers
  import opened Words

  // ---------- Node numbers ----------

  function Parent(i: nat): nat
    requires i > 0
  {
    (i + 1) / 2 - 1
  }

  function Left(i: nat): nat { 2 * i + 1 }
  function Right(i: nat): nat { 2 * i + 2 }

  function Depth(i: nat): nat { if i == 0 then 0 else 1 + Depth(Parent(i)) }

  lemma {:induction false} DepthRange(i: nat)
    ensures Pow2(Depth(i)) <= i + 1 < 2 * Pow2(Depth(i))
  {
    if i > 0 { DepthRange(Parent(i)); }
  }

  /** `j` is `i` or below it. */
  predicate Below(i: nat, j: nat) { j == i || (j > i && Below(i, Parent(j))) }

  /** How many nodes a tree of 2^logn leaves has. */
  function Count(logn: nat): nat { 2 * Pow2(logn) - 1 }

  lemma DepthAtMost(logn: nat, i: nat)
    ensures i < Count(logn) <==> Depth(i) <= logn
    ensures i < Pow2(logn) - 1 <==> Depth(i) < logn
  {
    DepthRange(i);
    if Depth(i) <= logn { Pow2Mono(Depth(i), logn); } else { Pow2Mono(logn + 1, Depth(i)); }
    if Depth(i) < logn { Pow2Mono(Depth(i) + 1, logn); } else { Pow2Mono(logn, Depth(i)); }
  }

  /** The mark of a node nothing below which has ever been handed out. */
  function Full(logn: nat, i: nat): int { logn - Depth(i) + 1 }

  function Max(x: int, y: int): int { if x > y then x else y }

  // ---------- The invariant, one node at a time ----------

  /** `live`: the nodes handed out and not yet freed. `split`: the nodes below which some node has
      ever been handed out. */
  ghost predicate NodeOk(logn: nat, a: seq<int>, live: set<nat>, split: set<nat>, i: nat)
    requires |a| == Count(logn) && i < |a|
  {
    && 0 <= a[i] <= Full(logn, i)
    && (a[i] == Full(logn, i) <==> i !in live && i !in split)
    && (i in live ==> a[i] == 0 && i !in split)
    && (i < Pow2(logn) - 1 ==>
      var l, r := Left(i), Right(i);
      && (i in live ==> a[l] == Full(logn, l) && a[r] == Full(logn, r))
      && (i !in live ==> a[i] == Max(a[l], a[r]) || (a[i] == Full(logn, i) && a[l] == Full(logn, l) && a[r] == Full(logn, r)))
      && (l in live || r in live || l in split || r in split ==> i in split))
    && (i >= Pow2(logn) - 1 ==> i !in split)
  }

  ghost predicate Ok(logn: nat, a: seq<int>, live: set<nat>, split: set<nat>) {
    && |a| == Count(logn)
    && (forall i :: 0 <= i < |a| ==> NodeOk(logn, a, live, split, i))
    && (forall i :: i in live || i in split ==> i < |a|)
  }

  predicate Stale(idx: nat, i: nat) { idx > 0 && i == Parent(idx) }

  /** All is well but at the parent of `idx`, whose mark is out of date. */
  ghost predicate OkBut(logn: nat, a: seq<int>, live: set<nat>, split: set<nat>, idx: nat) {
    && |a| == Count(logn)
    && (forall i :: 0 <= i < |a| ==> Stale(idx, i) || NodeOk(logn, a, live, split, i))
    && (forall i :: i in live || i in split ==> i < |a|)
  }

  ghost predicate NoLiveAbove(live: set<nat>, i: nat) {
    i > 0 ==> Parent(i) !in live && NoLiveAbove(live, Parent(i))
  }

  lemma KidDepth(i: nat)
    ensures Parent(Left(i)) == i && Parent(Right(i)) == i
    ensures Depth(Left(i)) == Depth(i) + 1 && Depth(Right(i)) == Depth(i) + 1
  {
  }

  lemma {:induction false} StepHere(logn: nat, a: seq<int>, live: set<nat>, split: set<nat>, p: nat)
    requires |a| == Count(logn) && Right(p) < |a| && p !in live
    requires NodeOk(logn, a, live, split, Left(p)) && NodeOk(logn, a, live, split, Right(p))
    ensures NodeOk(logn, a[p := Max(a[Left(p)], a[Right(p)])], live, split + {p}, p)
  {
    KidDepth(p);
  }

  /** A node is judged by its own mark and those of its children. */
  lemma {:induction false} StepElsewhere(logn: nat, a: seq<int>, live: set<nat>, split: set<nat>, p: nat, m: int, i: nat)
    requires |a| == Count(logn) && p < |a| && i < |a| && i != p && !Stale(p, i)
    requires NodeOk(logn, a, live, split, i)
    ensures NodeOk(logn, a[p := m], live, split + {p}, i) && NodeOk(logn, a[p := m], live, split, i)
    ensures NodeOk(logn, a[p := m], live + {p}, split, i) && NodeOk(logn, a[p := m], live - {p}, split, i)
  {
    KidDepth(i);
  }

  /** One step of the climb: the parent's mark becomes the greater one of its children. */
  lemma {:induction false} ClimbStep(logn: nat, a: seq<int>, live: set<nat>, split: set<nat>, idx: nat)
    requires 0 < idx < |a| && OkBut(logn, a, live, split, idx) && Parent(idx) !in live
    ensures var p := Parent(idx);
      Right(p) < |a| && OkBut(logn, a[p := Max(a[Left(p)], a[Right(p)])], live, split + {p}, p)
  {
    var p := Parent(idx);
    assert idx == Left(p) || idx == Right(p);
    KidDepth(p);
    StepHere(logn, a, live, split, p);
    var m := Max(a[Left(p)], a[Right(p)]);
    forall i: nat | i < |a| && !Stale(p, i) ensures NodeOk(logn, a[p := m], live, split + {p}, i) {
      if i != p { StepElsewhere(logn, a, live, split, p, m, i); }
    }
  }

  // ---------- What the marks say ----------

  lemma {:induction false} SplitAbove(logn: nat, a: seq<int>, live: set<nat>, split: set<nat>, i: nat, j: nat)
    requires Ok(logn, a, live, split) && Below(i, j) && i != j && (j in live || j in split)
    ensures i in split
  {
    var p := Parent(j);
    DepthAtMost(logn, j); DepthAtMost(logn, p);
    assert NodeOk(logn, a, live, split, p);
    assert j == Left(p) || j == Right(p);
    if i != p { SplitAbove(logn, a, live, split, i, p); }
  }

  /** Live nodes are never one below the other. */
  lemma {:induction false} LiveApart(logn: nat, a: seq<int>, live: set<nat>, split: set<nat>, i: nat, j: nat)
    requires Ok(logn, a, live, split) && i in live && j in live && Below(i, j)
    ensures i == j
  {
    assert NodeOk(logn, a, live, split, i);
    if i != j { SplitAbove(logn, a, live, split, i, j); }
  }

  lemma {:induction false} LiveHasNoneAbove(logn: nat, a: seq<int>, live: set<nat>, split: set<nat>, i: nat)
    requires Ok(logn, a, live, split) && (i in live || i in split)
    ensures NoLiveAbove(live, i)
  {
    if i > 0 {
      var p := Parent(i);
      DepthAtMost(logn, i); DepthAtMost(logn, p);
      assert NodeOk(logn, a, live, split, p);
      assert i == Left(p) || i == Right(p);
      LiveHasNoneAbove(logn, a, live, split, p);
    }
  }

  // ---------- Blocks ----------

  /** The size of a node's block, and where it begins. */
  function Size(logn: nat, i: nat): nat
    requires Depth(i) <= logn
  {
    Pow2(logn - Depth(i))
  }

  function Offset(logn: nat, i: nat): int
    requires Depth(i) <= logn
  {
    (i + 1) * Size(logn, i) - Pow2(logn)
  }

  predicate Contains(logn: nat, i: nat, o: int) {
    Depth(i) <= logn && Offset(logn, i) <= o < Offset(logn, i) + Size(logn, i)
  }

  lemma MulTwice(x: nat, p: nat)
    ensures x * (2 * p) == 2 * (x * p)
  {
  }

  lemma {:induction false} BelowRange(i: nat, j: nat)
    ensures Below(i, j) <==> Depth(i) <= Depth(j) && (i + 1) * Pow2(Depth(j) - Depth(i)) <= j + 1 < (i + 2) * Pow2(Depth(j) - Depth(i))
    decreases j
  {
    if Depth(j) > Depth(i) {
      var p, d := Parent(j), Depth(j) - Depth(i);
      BelowRange(i, p);
      MulTwice(i + 1, Pow2(d - 1)); MulTwice(i + 2, Pow2(d - 1));
      if i >= j { DepthUp(j, i); }
    } else if Below(i, j) && j != i {
      BelowDeeper(i, j);
    }
  }

  lemma {:induction false} DepthUp(i: nat, j: nat)
    requires i <= j
    ensures Depth(i) <= Depth(j)
    decreases j
  {
    if i > 0 { DepthUp(Parent(i), Parent(j)); }
  }

  lemma {:induction false} BelowDeeper(i: nat, j: nat)
    requires Below(i, j) && i != j
    ensures Depth(i) < Depth(j) && i < j
    decreases j
  {
    if Parent(j) != i { BelowDeeper(i, Parent(j)); }
  }

  /** A block is made of the units whose leaves are below its node. */
  lemma {:induction false} ContainsBelow(logn: nat, i: nat, o: nat)
    requires Depth(i) <= logn && o < Pow2(logn)
    ensures Contains(logn, i, o) <==> Below(i, o + Pow2(logn) - 1)
  {
    var leaf := o + Pow2(logn) - 1;
    DepthAtMost(logn, leaf);
    assert Depth(leaf) == logn;
    BelowRange(i, leaf);
    assert (i + 2) * Size(logn, i) == (i + 1) * Size(logn, i) + Size(logn, i);
  }

  lemma BelowParent(j: nat)
    requires j > 0
    ensures forall i: nat :: Below(i, j) && i != j <==> Below(i, Parent(j))
  {
    forall i: nat ensures Below(i, j) && i != j <==> Below(i, Parent(j)) {
      if Below(i, Parent(j)) { BelowDepth(i, Parent(j)); }
    }
  }

  lemma {:induction false} BelowDepth(i: nat, j: nat)
    requires Below(i, j)
    ensures i <= j
  {
  }

  lemma {:induction false} Chain(i: nat, j: nat, k: nat)
    requires Below(i, k) && Below(j, k)
    ensures Below(i, j) || Below(j, i)
    decreases k
  {
    if k != i && k != j { Chain(i, j, Parent(k)); }
  }

  lemma MulMono(x: nat, y: nat, s: nat)
    requires x <= y
    ensures x * s <= y * s
  {
  }

  lemma Distribute(x: int, y: int, s: int)
    ensures (x - y) * s == x * s - y * s && (x + y) * s == x * s + y * s
  {
  }

  lemma Slots(x: nat, p: nat, s: nat)
    requires p <= x < 2 * p
    ensures var k := x - p; x * s - p * s == k * s >= 0 && k * s + s <= p * s
  {
    var k := x - p;
    Distribute(x, p, s);
    MulMono(0, k, s);
    MulMono(k + 1, p, s);
    Distribute(k, 1, s);
  }

  /** A block lies inside the arena, at the `k`-th multiple of its size. */
  lemma {:induction false} BlockInRange(logn: nat, i: nat) returns (k: nat)
    requires Depth(i) <= logn
    ensures Offset(logn, i) == k * Size(logn, i)
    ensures 0 <= Offset(logn, i) && Offset(logn, i) + Size(logn, i) <= Pow2(logn)
  {
    var d := Depth(i);
    DepthRange(i);
    k := i + 1 - Pow2(d);
    assert Pow2(logn) == Pow2(d) * Size(logn, i) by { Pow2Add(d, logn - d); }
    Slots(i + 1, Pow2(d), Size(logn, i));
  }

  /** Two different live blocks have no unit in common. */
  lemma {:induction false} LiveDisjoint(logn: nat, a: seq<int>, live: set<nat>, split: set<nat>, i: nat, j: nat, o: int)
    requires Ok(logn, a, live, split) && i in live && j in live && Contains(logn, i, o) && Contains(logn, j, o)
    ensures i == j
  {
    DepthAtMost(logn, i); DepthAtMost(logn, j);
    var _ := BlockInRange(logn, i);
    ContainsBelow(logn, i, o); ContainsBelow(logn, j, o);
    Chain(i, j, o + Pow2(logn) - 1);
    if Below(i, j) {
      LiveApart(logn, a, live, split, i, j);
    } else {
      LiveApart(logn, a, live, split, j, i);
    }
  }

  // ---------- What can be handed out ----------

  /** NODE_SIZE. */
  function NodeSize(mark: int): nat { if mark <= 0 then 0 else Pow2(mark - 1) }

  lemma NodeSizeCovers(mark: int, e: nat)
    ensures NodeSize(mark) >= Pow2(e) <==> mark >= e + 1
  {
    if mark > e { Pow2Mono(e, mark - 1); } else if mark > 0 { Pow2Mono(mark, e); }
  }

  /** A node of block size 2^e that is whole: not handed out, nor anything above it, and nothing
      below it ever was. */
  ghost predicate Whole(logn: nat, live: set<nat>, split: set<nat>, i: nat, e: nat) {
    i < Count(logn) && Depth(i) + e == logn && i !in live && i !in split && NoLiveAbove(live, i)
  }

  lemma {:induction false} Covers(logn: nat, a: seq<int>, live: set<nat>, split: set<nat>, i: nat, j: nat)
    requires Ok(logn, a, live, split) && j < |a| && Below(i, j) && NoLiveAbove(live, j)
    ensures i < |a| && a[i] >= a[j]
  {
    if i != j {
      var p := Parent(j);
      assert NodeOk(logn, a, live, split, p) && NodeOk(logn, a, live, split, j);
      assert j == Left(p) || j == Right(p);
      KidDepth(p);
      Covers(logn, a, live, split, i, p);
    }
  }

  /** A mark never promises more than the node's own block. */
  lemma Capacity(logn: nat, a: seq<int>, live: set<nat>, split: set<nat>, i: nat, e: nat)
    requires Ok(logn, a, live, split) && i < |a| && a[i] >= e + 1
    ensures Depth(i) + e <= logn && i !in live && (Depth(i) + e == logn ==> i !in split)
  {
    assert NodeOk(logn, a, live, split, i);
  }

  /** The descent never gets stuck: one of the children keeps the promise. */
  lemma DescendStep(logn: nat, a: seq<int>, live: set<nat>, split: set<nat>, i: nat, e: nat)
    requires Ok(logn, a, live, split) && i < |a| && a[i] >= e + 1 && Depth(i) + e < logn
    ensures Right(i) < |a| && (a[Left(i)] >= e + 1 || a[Right(i)] >= e + 1) && a[Left(i)] >= 0
    ensures Parent(Left(i)) == i && Parent(Right(i)) == i && i !in live
    ensures Depth(Left(i)) == Depth(i) + 1 && Depth(Right(i)) == Depth(i) + 1
  {
    DepthAtMost(logn, i);
    KidDepth(i);
    assert NodeOk(logn, a, live, split, i) && NodeOk(logn, a, live, split, Left(i));
  }

  // ---------- Handing out and taking back, at the node itself ----------

  lemma {:induction false} AllocHere(logn: nat, a: seq<int>, live: set<nat>, split: set<nat>, i: nat)
    requires Ok(logn, a, live, split) && i < |a| && i !in live && i !in split
    ensures OkBut(logn, a[i := 0], live + {i}, split, i)
  {
    DepthAtMost(logn, i);
    KidDepth(i);
    assert NodeOk(logn, a, live, split, i);
    forall j: nat | j < |a| && !Stale(i, j) ensures NodeOk(logn, a[i := 0], live + {i}, split, j) {
      if j != i { StepElsewhere(logn, a, live, split, i, 0, j); }
      if j == i && i < Pow2(logn) - 1 {
        assert NodeOk(logn, a, live, split, Left(i)) && NodeOk(logn, a, live, split, Right(i));
      }
    }
  }

  lemma {:induction false} FreeHere(logn: nat, a: seq<int>, live: set<nat>, split: set<nat>, i: nat)
    requires Ok(logn, a, live, split) && i in live
    ensures OkBut(logn, a[i := Full(logn, i)], live - {i}, split, i)
  {
    var m := Full(logn, i);
    DepthAtMost(logn, i);
    KidDepth(i);
    assert NodeOk(logn, a, live, split, i);
    forall j: nat | j < |a| && !Stale(i, j) ensures NodeOk(logn, a[i := m], live - {i}, split, j) {
      if j != i { StepElsewhere(logn, a, live, split, i, m, j); }
    }
  }

  ghost predicate SplitAll(split: set<nat>, i: nat) {
    i > 0 ==> Parent(i) in split && SplitAll(split, Parent(i))
  }

  lemma {:induction false} LiveSplitAll(logn: nat, a: seq<int>, live: set<nat>, split: set<nat>, i: nat)
    requires Ok(logn, a, live, split) && (i in live || i in split)
    ensures SplitAll(split, i)
  {
    if i > 0 {
      var p := Parent(i);
      assert NodeOk(logn, a, live, split, p);
      assert i == Left(p) || i == Right(p);
      LiveSplitAll(logn, a, live, split, p);
    }
  }

  lemma HalfSize(size: nat, g: nat)
    requires g > 0 && size == Pow2(g)
    ensures size / 2 == Pow2(g - 1)
  {
  }

  // ---------- What can be handed out, and what can no longer ----------

  lemma {:induction false} BelowRoot(i: nat)
    ensures Below(0, i)
  {
    if i > 0 { BelowRoot(Parent(i)); }
  }

  /** Following the marks down from a node that keeps a promise of 2^e leads to a whole node. */
  lemma {:induction false} FollowMarks(logn: nat, a: seq<int>, live: set<nat>, split: set<nat>, i: nat, e: nat) returns (w: nat)
    requires Ok(logn, a, live, split) && i < |a| && a[i] >= e + 1 && NoLiveAbove(live, i)
    ensures Whole(logn, live, split, w, e)
    decreases |a| - i
  {
    Capacity(logn, a, live, split, i, e);
    if Depth(i) + e == logn {
      w := i;
    } else {
      DescendStep(logn, a, live, split, i, e);
      w := FollowMarks(logn, a, live, split, if a[Left(i)] >= e + 1 then Left(i) else Right(i), e);
    }
  }

  /** The root mark covers 2^e exactly when some whole node has just that size: the index neither
      overstates nor hides what can be handed out. */
  lemma {:induction false} CoversIffWhole(logn: nat, a: seq<int>, live: set<nat>, split: set<nat>, e: nat)
    requires Ok(logn, a, live, split)
    ensures NodeSize(a[0]) >= Pow2(e) <==> exists i: nat :: Whole(logn, live, split, i, e)
  {
    NodeSizeCovers(a[0], e);
    if a[0] >= e + 1 {
      var w := FollowMarks(logn, a, live, split, 0, e);
    }
    forall i: nat | Whole(logn, live, split, i, e) ensures a[0] >= e + 1 {
      assert NodeOk(logn, a, live, split, i);
      BelowRoot(i);
      Covers(logn, a, live, split, 0, i);
    }
  }

  /** A node below which something was ever handed out stays below its full mark for good, so the
      two marks the merge test compares can never both be the parent's full mark. */
  lemma {:induction false} NeverMerges(logn: nat, a: seq<int>, live: set<nat>, split: set<nat>, idx: nat)
    requires 0 < idx < |a| && OkBut(logn, a, live, split, idx)
    ensures Right(Parent(idx)) < |a| && a[Left(Parent(idx))] < Full(logn, Parent(idx)) && a[Right(Parent(idx))] < Full(logn, Parent(idx))
  {
    var p := Parent(idx);
    assert idx == Left(p) || idx == Right(p);
    KidDepth(p);
    assert NodeOk(logn, a, live, split, Left(p)) && NodeOk(logn, a, live, split, Right(p));
  }

  /** No whole node of size 2^e lies to the left of those below `index`, a node of size 2^g. */
  ghost predicate NoneBefore(logn: nat, live: set<nat>, split: set<nat>, index: nat, g: nat, e: nat) {
    e <= g && forall w: nat :: Whole(logn, live, split, w, e) ==> (index + 1) * Pow2(g - e) <= w + 1
  }

  lemma NoneBeforeRoot(logn: nat, live: set<nat>, split: set<nat>, e: nat)
    requires e <= logn
    ensures NoneBefore(logn, live, split, 0, logn, e)
  {
    forall w: nat | Whole(logn, live, split, w, e) ensures Pow2(logn - e) <= w + 1 { DepthRange(w); }
  }

  /** A whole node that is not to the left of `l` nor below it is to its right. */
  lemma {:induction false} NotBelow(logn: nat, a: seq<int>, live: set<nat>, split: set<nat>, l: nat, k: nat, e: nat, w: nat)
    requires Ok(logn, a, live, split) && Whole(logn, live, split, w, e) && l < |a| && a[l] < e + 1
    requires Depth(l) + k + e == logn && (l + 1) * Pow2(k) <= w + 1
    ensures (l + 2) * Pow2(k) <= w + 1
  {
    assert NodeOk(logn, a, live, split, w);
    if Below(l, w) { Covers(logn, a, live, split, l, w); }
    BelowRange(l, w);
  }

  lemma Halves(i: nat, half: nat)
    ensures (i + 1) * (2 * half) == (2 * i + 2) * half
  {
  }

  lemma {:induction false} NoneBeforeStep(logn: nat, a: seq<int>, live: set<nat>, split: set<nat>, index: nat, g: nat, e: nat)
    requires Ok(logn, a, live, split) && NoneBefore(logn, live, split, index, g, e) && e < g && Depth(index) + g == logn
    requires Right(index) < |a|
    ensures NoneBefore(logn, live, split, Left(index), g - 1, e)
    ensures a[Left(index)] < e + 1 ==> NoneBefore(logn, live, split, Right(index), g - 1, e)
  {
    var l, k := Left(index), g - 1 - e;
    KidDepth(index);
    Halves(index, Pow2(k));
    forall w: nat | Whole(logn, live, split, w, e)
      ensures (l + 1) * Pow2(k) <= w + 1 && (a[l] < e + 1 ==> (l + 2) * Pow2(k) <= w + 1)
    {
      if a[l] < e + 1 { NotBelow(logn, a, live, split, l, k, e, w); }
    }
  }

  /** `b` is the first whole node of its size. */
  ghost predicate Leftmost(logn: nat, live: set<nat>, split: set<nat>, b: nat, e: int) {
    e >= 0 && Whole(logn, live, split, b, e) && forall w: nat :: Whole(logn, live, split, w, e) ==> b <= w
  }

  /** Where the descent for 2^e stands after it has come down to size 2^g. */
  ghost predicate OnTheWay(logn: nat, a: seq<int>, live: set<nat>, split: set<nat>, index: nat, g: nat, e: nat) {
    && index < |a| && a[index] >= e + 1 && NoLiveAbove(live, index) && Depth(index) + g == logn
    && NoneBefore(logn, live, split, index, g, e)
  }

  lemma {:induction false} DescendOn(logn: nat, a: seq<int>, live: set<nat>, split: set<nat>, index: nat, g: nat, e: nat)
    requires Ok(logn, a, live, split) && OnTheWay(logn, a, live, split, index, g, e) && e < g
    ensures Right(index) < |a|
    ensures OnTheWay(logn, a, live, split, if NodeSize(a[Left(index)]) >= Pow2(e) then Left(index) else Right(index), g - 1, e)
  {
    DescendStep(logn, a, live, split, index, e);
    NoneBeforeStep(logn, a, live, split, index, g, e);
    NodeSizeCovers(a[Left(index)], e);
  }

  lemma Arrived(logn: nat, a: seq<int>, live: set<nat>, split: set<nat>, index: nat, e: nat)
    requires Ok(logn, a, live, split) && OnTheWay(logn, a, live, split, index, e, e)
    ensures Leftmost(logn, live, split, index, e)
  {
    Capacity(logn, a, live, split, index, e);
  }

  // ---------- The upward search of buddy_free ----------

  /** All the live nodes on the way from the leaf to the root are still ahead of the search. */
  ghost predicate Ahead(live: set<nat>, leaf: nat, index: nat) {
    Below(index, leaf) && forall i: nat :: i in live && Below(i, leaf) ==> Below(i, index)
  }

  ghost predicate CameFrom(logn: nat, a: seq<int>, index: nat)
    requires |a| == Count(logn) && index < |a|
  {
    index < Pow2(logn) - 1 ==> a[Left(index)] != 0 || a[Right(index)] != 0
  }

  lemma {:induction false} SearchStep(logn: nat, a: seq<int>, live: set<nat>, split: set<nat>, leaf: nat, index: nat)
    requires Ok(logn, a, live, split) && 0 < index < |a| && a[index] != 0 && Ahead(live, leaf, index)
    ensures Parent(index) < |a| && Ahead(live, leaf, Parent(index)) && CameFrom(logn, a, Parent(index))
  {
    var p := Parent(index);
    assert index == Left(p) || index == Right(p);
    assert NodeOk(logn, a, live, split, index);
    BelowParent(index);
    BelowUp(p, index, leaf);
  }

  lemma {:induction false} BelowUp(i: nat, j: nat, k: nat)
    requires j > 0 && i == Parent(j) && Below(j, k)
    ensures Below(i, k)
    decreases k
  {
    BelowDepth(j, k);
    if k != j { BelowUp(i, j, Parent(k)); }
  }

  /** The search stops at a live node, the only one whose block holds the unit. */
  lemma {:induction false} SearchEnd(logn: nat, a: seq<int>, live: set<nat>, split: set<nat>, leaf: nat, index: nat)
    requires Ok(logn, a, live, split) && index < |a| && a[index] == 0 && Ahead(live, leaf, index) && CameFrom(logn, a, index)
    ensures index in live && forall i: nat :: i in live && Below(i, leaf) ==> i == index
  {
    DepthAtMost(logn, index);
    assert NodeOk(logn, a, live, split, index);
    if index < Pow2(logn) - 1 {
      assert NodeOk(logn, a, live, split, Left(index)) && NodeOk(logn, a, live, split, Right(index));
    }
    forall i: nat | i in live && Below(i, leaf) ensures i == index {
      LiveApart(logn, a, live, split, i, index);
    }
  }

  lemma {:induction false} SearchFails(logn: nat, a: seq<int>, live: set<nat>, split: set<nat>, leaf: nat, i: nat)
    requires Ok(logn, a, live, split) && a[0] != 0 && Ahead(live, leaf, 0) && Below(i, leaf)
    ensures i !in live
  {
    var root: nat := 0;
    assert i in live && Below(i, leaf) ==> Below(i, root);
    assert NodeOk(logn, a, live, split, root);
  }

  /** One further node lies on the next level exactly when its number plus one is a power of two. */
  lemma {:induction false} DepthNext(i: nat)
    requires i > 0
    ensures Depth(i) == Depth(i - 1) + if IsPowerOf2(i + 1) then 1 else 0
  {
    var d := Depth(i);
    PowerOf2(i + 1); DepthRange(i); DepthUp(i - 1, i);
    DepthAtMost(d, i - 1);
    DepthRange(i - 1);
    if e: nat :| i + 1 == Pow2(e) {
      Pow2Less(e, d + 1);
      if e < d { Pow2Mono(e + 1, d); }
    }
    if Depth(i - 1) + 2 <= d { Pow2Mono(Depth(i - 1) + 2, d); }
  }

  lemma {:induction false} FreshOk(logn: nat, a: seq<int>)
    requires |a| == Count(logn) && forall j: nat :: j < |a| ==> a[j] == Full(logn, j)
    ensures Ok(logn, a, {}, {})
  {
    forall i: nat | i < |a| ensures NodeOk(logn, a, {}, {}, i) {
      DepthAtMost(logn, i);
      KidDepth(i);
    }
  }

  lemma {:induction false} NoneAboveShrinks(live: set<nat>, i: nat, b: nat)
    requires NoLiveAbove(live, i)
    ensures NoLiveAbove(live - {b}, i)
  {
    if i > 0 { NoneAboveShrinks(live, Parent(i), b); }
  }

  lemma {:induction false} NoneAboveGrows(live: set<nat>, i: nat, b: nat)
    requires NoLiveAbove(live, i) && i <= b
    ensures NoLiveAbove(live + {b}, i)
  {
    if i > 0 { NoneAboveGrows(live, Parent(i), b); }
  }

  class Buddy {
    const logn: nat
    const longest: array<int>
    ghost var live: set<nat>
    ghost var split: set<nat>

    ghost predicate Valid()
      reads this, longest
    {
      Ok(logn, longest[..], live, split)
    }

    /** buddy_new: every mark is full. `logn` is an uint8_t; above 29 the int shifts overflow. */
    constructor (logn: nat)
      requires logn <= 29
      ensures Valid() && fresh(longest) && this.logn == logn && live == {} && split == {}
    {
      this.logn := logn;
      var size := Pow2(logn);
      longest := new int[2 * size - 1];
      live, split := {}, {};
      new;
      var nodeLogn: int := logn + 1;
      for i := 0 to longest.Length
        invariant longest.Length == Count(logn) && fresh(longest) && live == {} && split == {}
        invariant nodeLogn == logn + 1 - (if i == 0 then 0 else Depth(i - 1) + 1)
        invariant forall j: nat :: j < i ==> longest[j] == Full(logn, j)
      {
        if i > 0 { DepthNext(i); } else { PowerOf2(1); assert Pow2(0) == 1; }
        if IsPowerOf2(i + 1) {
          nodeLogn := nodeLogn - 1;
        }
        longest[i] := nodeLogn + 1;
      }
      FreshOk(logn, longest[..]);
    }

    /** The way down to a node whose block is exactly 2^e. */
    method Descend(size: nat, ghost e: nat) returns (index: nat, nodeSize: nat)
      requires Valid() && longest[0] >= e + 1 && size == Pow2(e)
      ensures index < longest.Length && nodeSize == size && Leftmost(logn, live, split, index, e)
    {
      ghost var a := longest[..];
      index, nodeSize := 0, Pow2(logn);
      ghost var g: nat := logn;
      Capacity(logn, a, live, split, index, e);
      NoneBeforeRoot(logn, live, split, e);
      while nodeSize != size
        invariant OnTheWay(logn, a, live, split, index, g, e) && nodeSize == Pow2(g)
        decreases g
      {
        DescendOn(logn, a, live, split, index, g, e);
        HalfSize(nodeSize, g);
        if NodeSize(longest[Left(index)]) >= size {
          index := Left(index);
        } else {
          index := Right(index);
        }
        nodeSize := nodeSize / 2;
        g := g - 1;
      }
      if g > e { Pow2Mono(e + 1, g); }
      Arrived(logn, a, live, split, index, e);
    }

    /** The climb after a block has been handed out: every mark above is worked out again. */
    method AllocClimb(from: nat)
      requires from < longest.Length && OkBut(logn, longest[..], live, split, from) && NoLiveAbove(live, from)
      modifies longest, this`split
      ensures Valid() && forall i: nat :: i in split <==> i in old(split) || (Below(i, from) && i != from)
    {
      var index: nat := from;
      while index > 0
        invariant index < longest.Length && OkBut(logn, longest[..], live, split, index) && NoLiveAbove(live, index)
        invariant forall i: nat :: i in split || (Below(i, index) && i != index) <==> i in old(split) || (Below(i, from) && i != from)
        decreases index
      {
        ghost var a := longest[..];
        ClimbStep(logn, a, live, split, index);
        BelowParent(index);
        index := Parent(index);
        longest[index] := Max(longest[Left(index)], longest[Right(index)]);
        split := split + {index};
        assert longest[..] == a[index := longest[index]];
      }
    }

    /** Hands out the whole node `index`. */
    method Take(index: nat)
      requires Valid() && index < longest.Length && index !in live && index !in split && NoLiveAbove(live, index)
      modifies longest, this`live, this`split
      ensures Valid() && live == old(live) + {index}
      ensures forall i: nat :: i in split <==> i in old(split) || (Below(i, index) && i != index)
    {
      ghost var a := longest[..];
      AllocHere(logn, a, live, split, index);
      longest[index] := 0;
      assert longest[..] == a[index := 0];
      NoneAboveGrows(live, index, index);
      live := live + {index};
      AllocClimb(index);
    }

    /** fix_size, as it stands: five steps on one word. */
    method FixUp(size: nat) returns (r: nat)
      ensures r == FixSize(size)
    {
      r := size;
      r := Or(r, r / 2);
      r := Or(r, r / 4);
      r := Or(r, r / 16);
      r := Or(r, r / 256);
      r := Or(r, r / 65536);
      r := (r + 1) % Modulus;
    }

    /** buddy_alloc. It fails exactly when the root mark does not cover the rounded request; otherwise
        the leftmost whole block of
        that size, at node `b`, is handed out. A request above 2^31 would round to zero in 32 bits. */
    method Alloc(request: nat) returns (offset: int, ghost b: nat)
      requires Valid() && 1 <= request <= 0x8000_0000
      modifies longest, this`live, this`split
      ensures Valid()
      ensures offset >= 0 <==> NodeSize(old(longest[0])) >= RoundUp(request)
      ensures offset >= -1
      ensures offset == -1 ==> longest[..] == old(longest[..]) && live == old(live) && split == old(split)
      ensures offset >= 0 ==> b !in old(live) && live == old(live) + {b} && Depth(b) <= logn
      ensures offset >= 0 ==> offset == Offset(logn, b) && Size(logn, b) == RoundUp(request)
      ensures offset >= 0 ==> Leftmost(logn, old(live), old(split), b, logn - Depth(b))
      ensures offset >= 0 ==> forall i: nat :: i in split <==> i in old(split) || (Below(i, b) && i != b)
    {
      b := 0;
      var size := request;
      ghost var e := RoundUpLeast(request);
      if !IsPowerOf2(size) { size := FixUp(size); }
      NodeSizeCovers(longest[0], e);
      if NodeSize(longest[0]) < size { return -1, b; }
      var index, nodeSize := Descend(size, e);
      b := index;
      offset := (index + 1) * nodeSize - Pow2(logn);
      ghost var k := BlockInRange(logn, index);
      assert logn - Depth(index) == e && Size(logn, index) == size && offset == Offset(logn, index);
      Take(index);
    }

    /** The search upwards for the first zero mark. */
    method Search(offset: nat) returns (found: bool, index: nat, nodeLogn: nat)
      requires Valid() && offset < Pow2(logn)
      ensures found ==> index in live && nodeLogn == Full(logn, index)
      ensures forall b: nat :: b in live && Contains(logn, b, offset) <==> found && b == index
    {
      ghost var a := longest[..];
      var leaf := offset + Pow2(logn) - 1;
      DepthAtMost(logn, leaf);
      nodeLogn, index := 1, leaf;
      forall b: nat | b in live ensures Contains(logn, b, offset) <==> Below(b, leaf) {
        DepthAtMost(logn, b);
        ContainsBelow(logn, b, offset);
      }
      while longest[index] != 0
        invariant index < |a| && nodeLogn == Full(logn, index)
        invariant Ahead(live, leaf, index) && CameFrom(logn, a, index)
        decreases index
      {
        nodeLogn := nodeLogn + 1;
        if index == 0 {
          forall b: nat | Below(b, leaf) ensures b !in live { SearchFails(logn, a, live, split, leaf, b); }
          return false, index, nodeLogn;
        }
        SearchStep(logn, a, live, split, leaf, index);
        index := Parent(index);
      }
      SearchEnd(logn, a, live, split, leaf, index);
      found := true;
    }

    /** The climb after a block has come back. */
    method FreeClimb(from: nat, mark: nat)
      requires from < longest.Length && OkBut(logn, longest[..], live, split, from)
      requires NoLiveAbove(live, from) && SplitAll(split, from) && mark == Full(logn, from)
      modifies longest
      ensures Valid()
    {
      var index: nat, nodeLogn := from, mark;
      while index > 0
        invariant index < longest.Length && OkBut(logn, longest[..], live, split, index)
        invariant NoLiveAbove(live, index) && SplitAll(split, index) && nodeLogn == Full(logn, index)
        decreases index
      {
        ghost var a := longest[..];
        ghost var kid := index;
        index := Parent(index);
        nodeLogn := nodeLogn + 1;
        var left, right := longest[Left(index)], longest[Right(index)];
        if left == right && left == nodeLogn {   // never so: NeverMerges
          longest[index] := nodeLogn;
        } else {
          longest[index] := Max(left, right);
        }
        ClimbStep(logn, a, live, split, kid);
        NeverMerges(logn, a, live, split, kid);
        assert split + {index} == split;
        assert longest[..] == a[index := longest[index]];
      }
    }

    /** buddy_free: any unit of a live block gives that block back and touches no other; a unit that
        is in no live block, or is out of range, changes nothing. Nothing ever merges. */
    method Free(offset: nat)
      requires Valid()
      modifies longest, this`live
      ensures Valid()
      ensures forall b: nat :: b in live <==> b in old(live) && !Contains(logn, b, offset)
      ensures live == old(live) ==> longest[..] == old(longest[..])
    {
      if offset >= Pow2(logn) {
        forall b: nat | b in live ensures !Contains(logn, b, offset) {
          DepthAtMost(logn, b);
          var k := BlockInRange(logn, b);
        }
        return;
      }
      var found, index, nodeLogn := Search(offset);
      if !found { return; }
      ghost var a := longest[..];
      FreeHere(logn, a, live, split, index);
      LiveSplitAll(logn, a, live, split, index);
      LiveHasNoneAbove(logn, a, live, split, index);
      NoneAboveShrinks(live, index, index);
      longest[index] := nodeLogn;
      assert longest[..] == a[index := nodeLogn];
      live := live - {index};
      FreeClimb(index, nodeLogn);
    }
  }

  /** Freed buddies do not coalesce: once any smaller block has been handed out and come back, the
      whole arena can never be handed out again, though nothing is live. */
  method Uncoalesced(logn: nat, request: nat) returns (first: int, second: int)
    requires 1 <= request && logn <= 29 && RoundUp(request) < Pow2(logn) && request <= 0x8000_0000
    ensures first >= 0 && second == -1
  {
    var b := new Buddy(logn);
    ghost var node;
    assert NodeOk(logn, b.longest[..], b.live, b.split, 0);
    first, node := b.Alloc(request);
    assert 0 in b.split by { BelowRoot(node); }
    assert Contains(logn, node, first);
    b.Free(first);
    assert b.live == {};
    assert NodeOk(logn, b.longest[..], b.live, b.split, 0);
    NodeSizeCovers(b.longest[0], logn);
    WholeRequest(logn);
    second, node := b.Alloc(Pow2(logn));
  }

  lemma WholeRequest(logn: nat)
    requires logn <= 29
    ensures RoundUp(Pow2(logn)) == Pow2(logn) <= 0x8000_0000
  {
    PowerOf2(Pow2(logn));
    Two31(); Pow2Mono(logn, 31);
  }
}
