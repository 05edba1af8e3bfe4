/** c/src/mw_worker.c and c/src/thread.h: threads moving between the two pools and the stop
    list. Running a thread's script is an arbitrary choice of how it yields. */
module Worker {
  import opened RbShape
  import opened RbColor
  import opened RbHeap
  import opened RbInsert
  import opened Pools
  import opened Timeouts

  /** How a resumed thread comes back: it waits for io or sleeps until a time, or is over. */
  datatype Outcome = IoWait(until: int) | SleepFor(until: int) | Finish

  /** `pool` holds `w`, and every thread in it says so and has status `st`. */
  ghost predicate Home(pool: RbTree, w: T, st: Status)
    reads pool, Nodes(w), Inorder(w)
  {
    Pool(pool, w) && forall x :: x in Nodes(w) ==> x.pool == pool && x.status == st
  }

  ghost predicate Stopped(ths: seq<Node>)
    reads ths`pool, ths`status
  {
    forall x :: x in ths ==> x.pool == null && x.status.Stop?
  }

  /** A thread that is in no pool joins one, with its new expiry time and status. */
  method Join(th: Node, et: int, st: Status, pool: RbTree, ghost w: T) returns (ghost w': T, ghost p: seq<Node>, ghost q: seq<Node>)
    requires Home(pool, w, st) && th !in Nodes(w) && !st.Stop?
    modifies pool, th, Nodes(w)`parent, Nodes(w)`left, Nodes(w)`right, Nodes(w)`color
    ensures Home(pool, w', st) && Nodes(w') == Nodes(w) + {th} && th.et == et && th.pool == pool && th.status == st
    ensures Inorder(w) == p + q && Inorder(w') == p + [th] + q && Between(p, et, q)
  {
    InorderSet(w);
    assert allocated(Nodes(w)) && allocated(Inorder(w));
    th.et := et;
    th.status := st;
    var r;
    r, w', p, q := AddToPool(th, pool, w);
  }

  /** The same, seen from the other pool and the stop list: nothing changes there. */
  method JoinBeside(th: Node, et: int, st: Status, pool: RbTree, ghost w: T,
                    ghost other: RbTree, ghost ow: T, ghost ost: Status, ghost ths: seq<Node>)
    returns (ghost w': T)
    requires Home(pool, w, st) && th !in Nodes(w) && !st.Stop?
    requires Home(other, ow, ost) && other != pool && Nodes(ow) !! Nodes(w) && th !in Nodes(ow)
    requires Stopped(ths) && th !in ths
    modifies pool, th, Nodes(w)`parent, Nodes(w)`left, Nodes(w)`right, Nodes(w)`color
    ensures Home(pool, w', st) && Nodes(w') == Nodes(w) + {th} && th.et == et && th.pool == pool && th.status == st
    ensures Home(other, ow, ost) && Stopped(ths)
  {
    InorderSet(ow);
    assert allocated(Nodes(ow)) && allocated(Inorder(ow)) && allocated(ths);
    ghost var p, q;
    w', p, q := Join(th, et, st, pool, w);
  }

  /** A thread that is in no pool stops: its `pool` field is cleared first, so the call that
      would take it out of its pool returns at once. */
  method StopAlone(th: Node)
    modifies th`status, th`pool
    ensures th.status.Stop? && th.pool == null
  {
    th.status := Stop;
    th.pool := null;
    var r, _, _, _ := DelFromPool(th, Leaf);
  }

  /** A thread leaves the pool its `pool` field names, if any. */
  method Leave(th: Node, ghost pool: RbTree, ghost w: T, ghost st: Status) returns (ghost w': T)
    requires Home(pool, w, st) && (th in Nodes(w) <==> th.pool == pool) && (th.pool != null ==> th.pool == pool)
    modifies pool, th`pool, Nodes(w)`parent, Nodes(w)`left, Nodes(w)`right, Nodes(w)`color
    ensures Home(pool, w', st) && Nodes(w') == Nodes(w) - {th} && th.pool == null
  {
    assert allocated(Nodes(w)) && allocated(Inorder(w));
    var r;
    ghost var p, q;
    r, w', p, q := DelFromPool(th, if th.pool == null then Leaf else w);
    if r == -1 { w' := w; }
  }

  /** The same, seen from the other pool and the stop list: nothing changes there. */
  method LeaveBeside(th: Node, ghost pool: RbTree, ghost w: T, ghost st: Status,
                     ghost other: RbTree, ghost ow: T, ghost ost: Status, ghost ths: seq<Node>)
    returns (ghost w': T)
    requires Home(pool, w, st) && (th in Nodes(w) <==> th.pool == pool) && (th.pool != null ==> th.pool == pool)
    requires Home(other, ow, ost) && other != pool && Nodes(ow) !! Nodes(w) && th !in Nodes(ow) && Stopped(ths)
    modifies pool, th`pool, Nodes(w)`parent, Nodes(w)`left, Nodes(w)`right, Nodes(w)`color
    ensures Home(pool, w', st) && Nodes(w') == Nodes(w) - {th} && th.pool == null
    ensures Home(other, ow, ost) && Stopped(ths)
  {
    InorderSet(ow);
    assert allocated(Nodes(ow)) && allocated(Inorder(ow)) && allocated(ths);
    w' := Leave(th, pool, w, st);
  }

  ghost function Times(s: seq<Node>): (r: seq<int>)
    reads s`et
    ensures |r| == |s| && forall i :: 0 <= i < |s| ==> r[i] == s[i].et
  {
    if s == [] then [] else Times(s[..|s| - 1]) + [s[|s| - 1].et]
  }

  /** A pool is cut behind its first n threads: these had expired, and the root of the rest had not. */
  ghost predicate Cut(times: seq<int>, n: nat, rest: T, now: int) {
    && n <= |times| && (forall i :: 0 <= i < n ==> times[i] <= now)
    && (rest.Bin? ==> var i := n + |Inorder(rest.l)|; i < |times| && times[i] > now)
  }

  lemma CutTimes(w: T, r: T, rest: T, now: int)
    requires Inorder(w) == Inorder(r) + Inorder(rest) && AllDue(Inorder(r), now) && !RootDue(rest, now)
    ensures Cut(Times(Inorder(w)), |Inorder(r)|, rest, now)
  {
    var a := Inorder(r);
    assert forall i :: 0 <= i < |a| ==> (a + Inorder(rest))[i] in a;
    if rest.Bin? { assert (a + Inorder(rest))[|a| + |Inorder(rest.l)|] == rest.x; }
  }

  /** asthread_remove_timeout_threads. The walk that follows needs a root without a parent: the
      root of the pool is due, or nothing is. */
  method CutDue(pool: RbTree, now: int, ghost w: T) returns (ret: Node?, ghost r: T, ghost w': T)
    requires Pool(pool, w) && (RootDue(w, now) || NoneDue(Inorder(w), now))
    modifies pool`root, Nodes(w)`parent, Nodes(w)`left, Nodes(w)`right, Nodes(w)`color
    ensures Pool(pool, w')
    ensures ret == Root(r) && Dist(r) && Rep(r, null) && Nodes(w) == Nodes(r) + Nodes(w') && Nodes(r) !! Nodes(w')
    ensures Inorder(w) == Inorder(r) + Inorder(w') && Cut(old(Times(Inorder(w))), |Inorder(r)|, w', now)
    ensures ret == null <==> NoneDue(Inorder(w), now)
  {
    assert allocated(Nodes(w)) && allocated(Inorder(w));
    FirstDueIsIn(w, now);
    var fault;
    fault, ret, r, w' := RemoveTimeoutThreads(pool, now, w);
    if w'.Bin? { assert w'.x in Inorder(w'); }
    CutTimes(w, r, w', now);
    assert Times(Inorder(w)) == old(Times(Inorder(w)));
  }

  method TakeTimedOut(pool: RbTree, now: int, ghost w: T, ghost st: Status) returns (ret: Node?, ghost r: T, ghost w': T)
    requires Home(pool, w, st) && (RootDue(w, now) || NoneDue(Inorder(w), now))
    modifies pool`root, Nodes(w)`parent, Nodes(w)`left, Nodes(w)`right, Nodes(w)`color
    ensures Home(pool, w', st)
    ensures ret == Root(r) && Dist(r) && Rep(r, null) && Nodes(w) == Nodes(r) + Nodes(w') && Nodes(r) !! Nodes(w')
    ensures Inorder(w) == Inorder(r) + Inorder(w') && Cut(old(Times(Inorder(w))), |Inorder(r)|, w', now)
    ensures ret == null <==> NoneDue(Inorder(w), now)
  {
    assert allocated(Nodes(w)) && allocated(Inorder(w));
    ret, r, w' := CutDue(pool, now, w);
  }

  /** The same, seen from the other pool and the stop list: nothing changes there. */
  method TakeBeside(pool: RbTree, now: int, ghost w: T, ghost st: Status,
                    ghost other: RbTree, ghost ow: T, ghost ost: Status, ghost ths: seq<Node>)
    returns (ret: Node?, ghost r: T, ghost w': T)
    requires Home(pool, w, st) && (RootDue(w, now) || NoneDue(Inorder(w), now))
    requires Home(other, ow, ost) && other != pool && Nodes(ow) !! Nodes(w) && Stopped(ths)
    modifies pool`root, Nodes(w)`parent, Nodes(w)`left, Nodes(w)`right, Nodes(w)`color
    ensures Home(pool, w', st) && Home(other, ow, ost) && Stopped(ths)
    ensures ret == Root(r) && Dist(r) && Rep(r, null) && Nodes(w) == Nodes(r) + Nodes(w') && Nodes(r) !! Nodes(w')
    ensures Inorder(w) == Inorder(r) + Inorder(w') && Cut(old(Times(Inorder(w))), |Inorder(r)|, w', now)
    ensures ret == null <==> NoneDue(Inorder(w), now)
  {
    InorderSet(ow);
    assert allocated(Nodes(ow)) && allocated(Inorder(ow)) && allocated(ths) && allocated(Inorder(w));
    ret, r, w' := TakeTimedOut(pool, now, w, st);
  }

  lemma {:induction false} FirstDueIsIn(w: T, now: int)
    ensures var (k, t) := LeftDue(Top, w, now); t.Bin? ==> t.x in Inorder(w) && t.x.et <= now
  {
    var (k, t) := LeftDue(Top, w, now);
    if t.Bin? { InorderAt(k, t); }
  }

  // ---------- rb_tree_postorder_travel ----------

  /** What is left of a tree that is being taken apart, with the walk at the root of `t`. */
  ghost predicate Loose(k: P, t: T)
    reads Nodes(t), PNodes(k)
  {
    ZDist(k, t) && Rep(t, Head(k, null)) && PRep(k, Root(t), null)
  }

  /** The same for a tree whose root has the parent `top`, which need not know of it. */
  ghost predicate Hanging(k: P, t: T, top: Node?)
    reads Nodes(t), PNodes(k)
  {
    ZDist(k, t) && Rep(t, Head(k, top)) && PRep(k, Root(t), top)
  }

  /** Going down, to the left child or, when there is none, to the right one. */
  lemma {:induction false} GoDown(k: P, t: T, s: Side, top: Node?)
    requires Hanging(k, t, top) && t.Bin? && Kid(t, s).Bin? && (s.Right? ==> t.l.Leaf?)
    ensures var k', t' := In(k, s, t.x, t.c, Kid(t, Opp(s))), Kid(t, s);
      && Hanging(k', t', top) && Nodes(t') + PNodes(k') == Nodes(t) + PNodes(k)
      && Post(t') + PostAround(k') == Post(t) + PostAround(k)
  {
    assert Rep(t.l, t.x) && Rep(t.r, t.x);
    PostDown(k, t, s);
  }

  /** The childless node `tn` is cut off from its parent, where the walk goes on. */
  method CutLeaf(tn: Node, ghost k: P, ghost t: T, ghost top: Node?) returns (fa: Node?, ghost k': P, ghost t': T)
    requires Hanging(k, t, top) && t.Bin? && t.x == tn && t.l.Leaf? && t.r.Leaf? && Just(top) !! PNodes(k)
    modifies Just(tn.parent)`left, Just(tn.parent)`right
    ensures fa == if k.Top? then top else Root(t')
    ensures Hanging(k', t', top) && Nodes(t') + PNodes(k') == PNodes(k) && tn !in PNodes(k) && (k.In? ==> t'.Bin?)
    ensures k.Top? ==> k'.Top? && t'.Leaf? && (fa != null ==> fa.left == null || fa.right == null)
    ensures Post(t) + PostAround(k) == [tn] + (Post(t') + PostAround(k'))
  {
    k', t' := Top, Leaf;
    fa := tn.parent;
    if k.In? {
      k', t' := k.up, Mk(k.s, Leaf, k.x, k.c, k.sib);
    }
    if fa != null {
      if tn == fa.left {
        fa.left := null;
      } else {
        fa.right := null;
      }
    }
  }

  /** The walk over the second kind of timed-out tree, whose root still has a parent in the pool: when
      it has been through the tree it does not end. It has cut a link of that parent, and goes on with
      it. What is done to the threads visited is left out. */
  method TravelOn(root: Node, ghost r: T) returns (tn: Node?, ghost visited: seq<Node>)
    requires r.Bin? && r.x == root && Dist(r) && Rep(r, root.parent) && root.parent != null && root.parent !in Nodes(r)
    modifies Nodes(r)`left, Nodes(r)`right, root.parent`left, root.parent`right
    ensures visited == Post(r) && tn == old(root.parent) && (tn.left == null || tn.right == null)
  {
    var fa := root.parent;
    ghost var k, t := Top, r;
    tn, visited := root, [];
    while true
      invariant Hanging(k, t, fa) && tn == Root(t) && t.Bin? && Nodes(t) + PNodes(k) <= Nodes(r)
      invariant visited + (Post(t) + PostAround(k)) == Post(r)
      decreases |Post(t) + PostAround(k)|, t
    {
      ghost var out;
      tn, k, t, out := StepOn(tn, fa, k, t, Nodes(r));
      visited := visited + out;
      if tn == fa { return; }
    }
  }

  /** One turn of that walk; `out` is the node it cut off, if any. */
  method StepOn(tn: Node, ghost fa: Node, ghost k: P, ghost t: T, ghost all: set<Node>)
    returns (n: Node?, ghost k': P, ghost t': T, ghost out: seq<Node>)
    requires Hanging(k, t, fa) && t.Bin? && t.x == tn && Nodes(t) + PNodes(k) <= all && fa !in all
    modifies all`left, all`right, fa`left, fa`right
    ensures Hanging(k', t', fa) && Nodes(t') + PNodes(k') <= all
    ensures Post(t) + PostAround(k) == out + (Post(t') + PostAround(k')) && (out == [] ==> t' < t)
    ensures if n == fa then Post(t') + PostAround(k') == [] && (fa.left == null || fa.right == null) else t'.Bin? && n == t'.x
  {
    out := [];
    assert Rep(t.l, tn) && Rep(t.r, tn);
    var s := if tn.left != null then Left else Right;
    n := tn.Child(s);
    if n != null {
      GoDown(k, t, s, fa);
      k', t' := In(k, s, t.x, t.c, Kid(t, Opp(s))), Kid(t, s);
    } else {
      out := [tn];
      n, k', t' := CutLeaf(tn, k, t, fa);
    }
  }

  /** So whenever a thread is due but the root is not, and the call does not fault, the walk leaves what
      was cut off and enters the pool, at a thread that is not due. */
  method WalkEntersPool(pool: RbTree, now: int, ghost w: T) returns (tn: Node?, ghost r: T, ghost w': T, ghost visited: seq<Node>)
    requires Pool(pool, w) && !RootDue(w, now) && !Faults(w, now) && exists x :: x in Inorder(w) && x.et <= now
    modifies pool`root, Nodes(w)`parent, Nodes(w)`left, Nodes(w)`right, Nodes(w)`color
    ensures Inorder(w) == Inorder(r) + Inorder(w') && visited == Post(r)
    ensures tn != null && tn in Inorder(w') && !Due(tn, now) && (tn.left == null || tn.right == null)
  {
    assert allocated(Nodes(w)) && allocated(Inorder(w));
    var fault, ret;
    fault, ret, r, w' := RemoveTimeoutThreads(pool, now, w);
    InorderSet(w');
    assert allocated(Nodes(r)) && allocated(Nodes(w')) && allocated(Inorder(w'));
    tn, visited := TravelOn(ret, r);
  }

  lemma Regroup<A>(a: seq<A>, b: seq<A>, c: seq<A>)
    ensures a + (b + c) == a + b + c
  {
  }

  lemma {:induction false} HomeOfOthers(pool: RbTree, w: T, st: Status)
    requires Holds(pool, w) && IsRB(w) && Sorted(Inorder(w))
    requires forall x :: x in Nodes(w) ==> x.pool == pool && x.status == st
    ensures Home(pool, w, st)
  {
  }

  /** Which threads wait for io, which sleep, and which have stopped, in the order they did. */
  datatype Places = Places(io: set<Node>, sl: set<Node>, stop: seq<Node>)

  /** Thread `x` has run and come back as `o`. */
  ghost function Gone(p: Places, x: Node, o: Outcome): Places {
    match o
    case IoWait(_) => p.(io := p.io + {x})
    case SleepFor(_) => p.(sl := p.sl + {x})
    case Finish => p.(stop := p.stop + [x])
  }

  /** The threads of `xs` have run, one after the other. */
  ghost function AllGone(p: Places, xs: seq<Node>, choose: Node -> Outcome): Places {
    if xs == [] then p
    else var x := xs[|xs| - 1]; Gone(AllGone(p, xs[..|xs| - 1], choose), x, choose(x))
  }

  ghost function Threads(p: Places): set<Node> { p.io + p.sl + Elems(p.stop) }

  /** The place a thread is in, by how it came back. */
  ghost predicate WentTo(p: Places, x: Node, o: Outcome) {
    match o
    case IoWait(_) => x in p.io
    case SleepFor(_) => x in p.sl
    case Finish => x in p.stop
  }

  /** It waits until the time it asked for. */
  ghost predicate Timed(x: Node, o: Outcome)
    reads x`et
  {
    match o
    case IoWait(until) => x.et == until
    case SleepFor(until) => x.et == until
    case Finish => true
  }

  lemma GoneOne(p: Places, x: Node, o: Outcome)
    ensures Threads(Gone(p, x, o)) == Threads(p) + {x} && WentTo(Gone(p, x, o), x, o)
    ensures forall y, c :: WentTo(p, y, c) ==> WentTo(Gone(p, x, o), y, c)
  {
  }

  /** Every thread that ran is where its outcome puts it. */
  lemma {:induction false} AllGoneIn(p: Places, xs: seq<Node>, choose: Node -> Outcome)
    ensures Threads(AllGone(p, xs, choose)) == Threads(p) + Elems(xs)
    ensures forall x :: x in xs ==> WentTo(AllGone(p, xs, choose), x, choose(x))
  {
    if xs != [] {
      var n := |xs| - 1;
      assert xs == xs[..n] + [xs[n]];
      AllGoneIn(p, xs[..n], choose);
      GoneOne(AllGone(p, xs[..n], choose), xs[n], choose(xs[n]));
    }
  }

  /** And nothing else has moved. */
  lemma {:induction false} OthersStay(p: Places, xs: seq<Node>, choose: Node -> Outcome)
    ensures var q := AllGone(p, xs, choose);
      && q.io == p.io + (set x | x in xs && choose(x).IoWait?)
      && q.sl == p.sl + (set x | x in xs && choose(x).SleepFor?)
      && p.stop <= q.stop && forall x :: x in q.stop[|p.stop|..] <==> x in xs && choose(x).Finish?
  {
    if xs != [] {
      var n := |xs| - 1;
      assert xs == xs[..n] + [xs[n]];
      OthersStay(p, xs[..n], choose);
      var q := AllGone(p, xs[..n], choose);
      assert (q.stop + [xs[n]])[|p.stop|..] == q.stop[|p.stop|..] + [xs[n]];
    }
  }

  lemma WithoutOne(p: Places, x: Node)
    ensures Threads(Places(p.io - {x}, p.sl - {x}, p.stop)) + {x} == Threads(p) + {x}
  {
  }

  /** A pool's threads in two parts. */
  lemma SplitThreads(p: Places, a: set<Node>, b: set<Node>)
    ensures p.io == a + b ==> Threads(p) == Threads(p.(io := b)) + a
    ensures p.sl == a + b ==> Threads(p) == Threads(p.(sl := b)) + a
  {
  }

  lemma NextGone(p: Places, xs: seq<Node>, out: seq<Node>, choose: Node -> Outcome)
    requires |out| <= 1
    ensures AllGone(p, xs + out, choose) == if out == [] then AllGone(p, xs, choose) else Gone(AllGone(p, xs, choose), out[0], choose(out[0]))
  {
    if out == [] { assert xs + out == xs; } else { assert (xs + out)[..|xs|] == xs; }
  }

  /** The threads of `s` are where their outcomes put them, until the time they asked for. */
  ghost predicate Arrived(p: Places, s: set<Node>, choose: Node -> Outcome)
    reads s`et
  {
    forall x :: x in s ==> WentTo(p, x, choose(x)) && Timed(x, choose(x))
  }

  ghost predicate AllTimed(s: seq<Node>, choose: Node -> Outcome)
    reads s`et
  {
    forall x :: x in s ==> Timed(x, choose(x))
  }

  lemma AllArrived(p: Places, r: T, choose: Node -> Outcome)
    requires AllTimed(Post(r), choose)
    ensures Arrived(AllGone(p, Post(r), choose), Nodes(r), choose)
    ensures Threads(AllGone(p, Post(r), choose)) == Threads(p) + Nodes(r)
  {
    AllGoneIn(p, Post(r), choose);
    PostSet(r);
  }

  class Worker {
    const ioPool: RbTree
    const sleepPool: RbTree
    var stopThreads: seq<Node>
    ghost var io: T
    ghost var sl: T

    ghost predicate Valid()
      reads this, ioPool, sleepPool, Nodes(io), Nodes(sl), Inorder(io), Inorder(sl), stopThreads
    {
      && ioPool != sleepPool && Nodes(io) !! Nodes(sl)
      && Home(ioPool, io, Run) && Home(sleepPool, sl, Sleep) && Stopped(stopThreads)
    }

    /** The thread is in exactly the tree its `pool` field names. */
    ghost predicate Placed(th: Node)
      reads this, th
    {
      && (th.pool == null || th.pool == ioPool || th.pool == sleepPool)
      && (th in Nodes(io) <==> th.pool == ioPool) && (th in Nodes(sl) <==> th.pool == sleepPool)
    }

    /** Every thread of the worker is in exactly one tree, the one its `pool` field names, or stopped. */
    lemma AllPlaced(th: Node)
      requires Valid() && th in All()
      ensures Placed(th) && (th.pool == null <==> th in stopThreads)
    {
    }

    constructor ()
      ensures Valid() && io == Leaf && sl == Leaf && stopThreads == []
      ensures fresh(ioPool) && fresh(sleepPool)
    {
      var a := new RbTree();
      var b := new RbTree();
      ioPool, sleepPool, stopThreads, io, sl := a, b, [], Leaf, Leaf;
    }

    /** asthread_th_to_iowait. */
    method ToIoWait(th: Node, et: int)
      requires Valid() && th !in Nodes(io) && th !in Nodes(sl) && th !in stopThreads
      modifies this`io, ioPool, th, Nodes(io)`parent, Nodes(io)`left, Nodes(io)`right, Nodes(io)`color
      ensures Valid() && Placed(th) && Nodes(io) == old(Nodes(io)) + {th} && th.et == et && th.status.Run?
    {
      io := JoinBeside(th, et, Run, ioPool, io, sleepPool, sl, Sleep, stopThreads);
    }

    /** asthread_th_to_sleep. */
    method ToSleep(th: Node, et: int)
      requires Valid() && th !in Nodes(io) && th !in Nodes(sl) && th !in stopThreads
      modifies this`sl, sleepPool, th, Nodes(sl)`parent, Nodes(sl)`left, Nodes(sl)`right, Nodes(sl)`color
      ensures Valid() && Placed(th) && Nodes(sl) == old(Nodes(sl)) + {th} && th.et == et && th.status.Sleep?
    {
      sl := JoinBeside(th, et, Sleep, sleepPool, sl, ioPool, io, Run, stopThreads);
    }

    /** asthread_th_to_stop, for a thread that is in no pool. */
    method ToStop(th: Node)
      requires Valid() && th !in Nodes(io) && th !in Nodes(sl)
      modifies this`stopThreads, th`status, th`pool
      ensures Valid() && Placed(th) && stopThreads == old(stopThreads) + [th] && th.status.Stop?
    {
      assert allocated(stopThreads) && allocated(Nodes(io)) && allocated(Nodes(sl)) && allocated(Inorder(io)) && allocated(Inorder(sl));
      StopAlone(th);
      HomeOfOthers(ioPool, io, Run);
      HomeOfOthers(sleepPool, sl, Sleep);
      stopThreads := stopThreads + [th];
    }

    ghost function All(): set<Node>
      reads this
    {
      Threads(Where())
    }

    ghost function Where(): Places
      reads this
    {
      Places(Nodes(io), Nodes(sl), stopThreads)
    }

    /** thread_resume: a thread that is in no pool runs, and ends up where its script says. */
    method ThreadResume(th: Node, o: Outcome)
      requires Valid() && th !in Nodes(io) && th !in Nodes(sl)
      modifies this`io, this`sl, this`stopThreads, ioPool, sleepPool, th
      modifies Nodes(io)`parent, Nodes(io)`left, Nodes(io)`right, Nodes(io)`color
      modifies Nodes(sl)`parent, Nodes(sl)`left, Nodes(sl)`right, Nodes(sl)`color
      ensures Valid()
      ensures old(th.status).Stop? ==> Where() == old(Where())
      ensures !old(th.status).Stop? ==> Placed(th) && Where() == Gone(old(Where()), th, o) && Timed(th, o)
    {
      if th.status == Stop { return; }
      match o
      case IoWait(until) => ToIoWait(th, until);
      case SleepFor(until) => ToSleep(th, until);
      case Finish => ToStop(th);
    }

    /** asthread_th_del_from_pool, whichever pool it is: that matters to the proof alone. */
    method TakeOut(th: Node)
      requires Valid() && Placed(th)
      modifies this`io, this`sl, ioPool, sleepPool, th`pool
      modifies Nodes(io)`parent, Nodes(io)`left, Nodes(io)`right, Nodes(io)`color
      modifies Nodes(sl)`parent, Nodes(sl)`left, Nodes(sl)`right, Nodes(sl)`color
      ensures Valid() && Nodes(io) == old(Nodes(io)) - {th} && Nodes(sl) == old(Nodes(sl)) - {th}
    {
      if th.pool == sleepPool {
        sl := LeaveBeside(th, sleepPool, sl, Sleep, ioPool, io, Run, stopThreads);
      } else {
        io := LeaveBeside(th, ioPool, io, Run, sleepPool, sl, Sleep, stopThreads);
      }
    }

    /** handle_fd_read, handle_fd_write and handle_fd_error: an event on a thread's descriptor
        takes the thread out of whichever pool it is in and resumes it. */
    method HandleFd(th: Node, o: Outcome)
      requires Valid() && Placed(th)
      modifies this`io, this`sl, this`stopThreads, ioPool, sleepPool, th
      modifies Nodes(io)`parent, Nodes(io)`left, Nodes(io)`right, Nodes(io)`color
      modifies Nodes(sl)`parent, Nodes(sl)`left, Nodes(sl)`right, Nodes(sl)`color
      ensures Valid() && Placed(th)
      ensures old(th.status).Stop? ==> Where() == old(Where())
      ensures !old(th.status).Stop? ==>
        Where() == Gone(Places(old(Nodes(io)) - {th}, old(Nodes(sl)) - {th}, old(stopThreads)), th, o) && Timed(th, o)
      ensures !old(th.status).Stop? ==> All() == old(All()) + {th} && WentTo(Where(), th, o)
    {
      if th.status == Stop { return; }
      WithoutOne(Where(), th);
      TakeOut(th);
      ghost var p := Where();
      ThreadResume(th, o);
      GoneOne(p, th, o);
    }

    /** The tree being taken apart and the pools have no thread in common. */
    ghost predicate Apart(rest: set<Node>)
      reads this, rest`status
    {
      rest !! Nodes(io) + Nodes(sl) && forall x :: x in rest ==> !x.status.Stop?
    }

    /** Cutting off a childless node does not touch the pools. */
    method CutBeside(tn: Node, ghost k: P, ghost t: T) returns (fa: Node?, ghost k': P, ghost t': T)
      requires Valid() && Loose(k, t) && t.Bin? && t.x == tn && t.l.Leaf? && t.r.Leaf? && Apart(Nodes(t) + PNodes(k))
      modifies Just(tn.parent)`left, Just(tn.parent)`right
      ensures Valid() && fa == Root(t') && (fa == null ==> k'.Top?)
      ensures Loose(k', t') && Nodes(t') + PNodes(k') == Nodes(t) + PNodes(k) - {tn}
      ensures Post(t) + PostAround(k) == [tn] + (Post(t') + PostAround(k'))
    {
      InorderSet(io); InorderSet(sl);
      assert allocated(Nodes(io)) && allocated(Inorder(io)) && allocated(Nodes(sl)) && allocated(Inorder(sl)) && allocated(stopThreads);
      fa, k', t' := CutLeaf(tn, k, t, null);
    }

    /** Resuming a cut-off node does not touch what is left of its old tree. */
    method ResumeBeside(th: Node, o: Outcome, ghost k: P, ghost t: T)
      requires Valid() && Loose(k, t) && Apart(Nodes(t) + PNodes(k)) && th !in Nodes(t) + PNodes(k) && Apart({th})
      modifies this`io, this`sl, this`stopThreads, ioPool, sleepPool, th
      modifies Nodes(io)`parent, Nodes(io)`left, Nodes(io)`right, Nodes(io)`color
      modifies Nodes(sl)`parent, Nodes(sl)`left, Nodes(sl)`right, Nodes(sl)`color
      ensures Valid() && Loose(k, t) && Apart(Nodes(t) + PNodes(k))
      ensures Where() == Gone(old(Where()), th, o) && Timed(th, o)
    {
      assert allocated(Nodes(t)) && allocated(PNodes(k));
      ThreadResume(th, o);
    }

    /** The visit of a childless node: it is cut off, resumed, and the walk is at its parent. */
    method Visit(tn: Node, o: Outcome, ghost k: P, ghost t: T) returns (fa: Node?, ghost k': P, ghost t': T)
      requires Valid() && Loose(k, t) && t.Bin? && t.x == tn && t.l.Leaf? && t.r.Leaf? && Apart(Nodes(t) + PNodes(k))
      modifies this`io, this`sl, this`stopThreads, ioPool, sleepPool, Just(tn.parent)`left, Just(tn.parent)`right, tn
      modifies Nodes(io)`parent, Nodes(io)`left, Nodes(io)`right, Nodes(io)`color
      modifies Nodes(sl)`parent, Nodes(sl)`left, Nodes(sl)`right, Nodes(sl)`color
      ensures Valid() && Loose(k', t') && fa == Root(t') && (fa == null ==> k'.Top?)
      ensures Nodes(t') + PNodes(k') == Nodes(t) + PNodes(k) - {tn}
      ensures Apart(Nodes(t') + PNodes(k'))
      ensures Post(t) + PostAround(k) == [tn] + (Post(t') + PostAround(k'))
      ensures Where() == Gone(old(Where()), tn, o) && Timed(tn, o)
    {
      assert allocated(Nodes(t)) && allocated(PNodes(k));
      fa, k', t' := CutBeside(tn, k, t);
      ResumeBeside(tn, o, k', t');
    }

    /** One turn of the walk; `out` is the node it visited, if any. */
    method TravelStep(tn: Node, o: Outcome, ghost k: P, ghost t: T, ghost all: set<Node>)
      returns (n: Node?, ghost k': P, ghost t': T, ghost out: seq<Node>)
      requires Valid() && Loose(k, t) && t.Bin? && t.x == tn && Apart(Nodes(t) + PNodes(k))
      requires Nodes(t) + PNodes(k) <= all
      modifies this`io, this`sl, this`stopThreads, ioPool, sleepPool, tn, all`left, all`right
      modifies Nodes(io)`parent, Nodes(io)`left, Nodes(io)`right, Nodes(io)`color
      modifies Nodes(sl)`parent, Nodes(sl)`left, Nodes(sl)`right, Nodes(sl)`color
      ensures Valid() && Loose(k', t') && n == Root(t') && (n == null ==> k'.Top?)
      ensures Apart(Nodes(t') + PNodes(k'))
      ensures Post(t) + PostAround(k) == out + (Post(t') + PostAround(k')) && (out == [] ==> t' < t)
      ensures out == [] ==> Nodes(t') + PNodes(k') == Nodes(t) + PNodes(k) && Where() == old(Where())
      ensures out != [] ==> out == [tn] && Nodes(t') + PNodes(k') == Nodes(t) + PNodes(k) - {tn}
      ensures out != [] ==> Where() == Gone(old(Where()), tn, o) && Timed(tn, o)
    {
      out := [];
      assert Rep(t.l, tn) && Rep(t.r, tn);
      var s := if tn.left != null then Left else Right;
      n := tn.Child(s);
      if n != null {
        GoDown(k, t, s, null);
        k', t' := In(k, s, t.x, t.c, Kid(t, Opp(s))), Kid(t, s);
      } else {
        out := [tn];
        n, k', t' := Visit(tn, o, k, t);
      }
    }

    /** Where the walk over `r` stands: `visited` have gone where they should, the rest is still loose. */
    ghost predicate Walking(k: P, t: T, r: T, visited: seq<Node>, start: Places, choose: Node -> Outcome)
      reads this, Nodes(t), PNodes(k), visited`et
    {
      && Loose(k, t) && Apart(Nodes(t) + PNodes(k)) && Nodes(t) + PNodes(k) <= Nodes(r)
      && visited + (Post(t) + PostAround(k)) == Post(r)
      && Where() == AllGone(start, visited, choose) && Nodes(io) + Nodes(sl) <= start.io + start.sl + Nodes(r)
      && AllTimed(visited, choose) && forall x :: x in visited ==> x !in Nodes(t) + PNodes(k)
    }

    /** One turn of the walk over `r`. */
    method TravelTurn(tn: Node, choose: Node -> Outcome, ghost k: P, ghost t: T, ghost r: T, ghost visited: seq<Node>, ghost start: Places)
      returns (n: Node?, ghost k': P, ghost t': T, ghost visited': seq<Node>)
      requires Valid() && Walking(k, t, r, visited, start, choose) && t.Bin? && t.x == tn
      modifies this`io, this`sl, this`stopThreads, ioPool, sleepPool, Nodes(r)
      modifies Nodes(io)`parent, Nodes(io)`left, Nodes(io)`right, Nodes(io)`color
      modifies Nodes(sl)`parent, Nodes(sl)`left, Nodes(sl)`right, Nodes(sl)`color
      ensures Valid() && Walking(k', t', r, visited', start, choose) && n == Root(t') && (n == null ==> k'.Top?)
      ensures |visited'| > |visited| || (visited' == visited && t' < t)
    {
      ghost var out;
      n, k', t', out := TravelStep(tn, choose(tn), k, t, Nodes(r));
      visited' := visited + out;
      Regroup(visited, out, Post(t') + PostAround(k'));
      NextGone(start, visited, out, choose);
    }

    /** rb_tree_postorder_travel with p_io_timeout_thread or p_sleep_thread: the tree `r`, whose root has
        no parent, is taken apart bottom-up while its threads move on to the pools and the stop list. */
    method Travel(root: Node?, choose: Node -> Outcome, ghost r: T) returns (ghost visited: seq<Node>)
      requires Valid() && Dist(r) && Rep(r, null) && root == Root(r) && Apart(Nodes(r))
      modifies this`io, this`sl, this`stopThreads, ioPool, sleepPool, Nodes(r)
      modifies Nodes(io)`parent, Nodes(io)`left, Nodes(io)`right, Nodes(io)`color
      modifies Nodes(sl)`parent, Nodes(sl)`left, Nodes(sl)`right, Nodes(sl)`color
      ensures Valid() && visited == Post(r)
      ensures Where() == AllGone(old(Where()), Post(r), choose)
      ensures Arrived(Where(), Nodes(r), choose) && All() == old(All()) + Nodes(r)
    {
      var tn := root;
      ghost var k, t, start := Top, r, Where();
      visited := [];
      while tn != null
        invariant Valid() && Walking(k, t, r, visited, start, choose) && tn == Root(t) && (tn == null ==> k.Top?)
        decreases |Post(r)| - |visited|, t
      {
        tn, k, t, visited := TravelTurn(tn, choose, k, t, r, visited, start);
      }
      assert visited == Post(r);
      AllArrived(start, r, choose);
    }

    ghost method SetIo(w: T)
      requires ioPool != sleepPool && Nodes(w) !! Nodes(sl) && Home(ioPool, w, Run) && Home(sleepPool, sl, Sleep) && Stopped(stopThreads)
      modifies this`io
      ensures Valid() && io == w
    {
      io := w;
    }

    ghost method SetSl(w: T)
      requires ioPool != sleepPool && Nodes(io) !! Nodes(w) && Home(ioPool, io, Run) && Home(sleepPool, w, Sleep) && Stopped(stopThreads)
      modifies this`sl
      ensures Valid() && sl == w
    {
      sl := w;
    }

    method TakeIoFront(now: int) returns (ret: Node?, ghost r: T)
      requires Valid() && (RootDue(io, now) || NoneDue(Inorder(io), now))
      modifies this`io, ioPool`root, Nodes(io)`parent, Nodes(io)`left, Nodes(io)`right, Nodes(io)`color
      ensures Valid() && Apart(Nodes(r)) && ret == Root(r) && Dist(r) && Rep(r, null)
      ensures Nodes(old(io)) == Nodes(r) + Nodes(io) && Inorder(old(io)) == Inorder(r) + Inorder(io)
      ensures Cut(old(Times(Inorder(io))), |Inorder(r)|, io, now)
    {
      ghost var rest;
      assert allocated(Nodes(io));
      ret, r, rest := TakeBeside(ioPool, now, io, Run, sleepPool, sl, Sleep, stopThreads);
      SetIo(rest);
    }

    /** process_io_timeout: the expired front of the io pool runs, in post-order. */
    method ProcessIoTimeout(now: int, choose: Node -> Outcome) returns (ghost r: T, ghost rest: T, ghost visited: seq<Node>)
      requires Valid() && (RootDue(io, now) || NoneDue(Inorder(io), now))
      modifies this`io, this`sl, this`stopThreads, ioPool, sleepPool, Nodes(io)
      modifies Nodes(sl)`parent, Nodes(sl)`left, Nodes(sl)`right, Nodes(sl)`color
      ensures Valid() && All() == old(All()) && visited == Post(r)
      ensures Inorder(old(io)) == Inorder(r) + Inorder(rest) && Nodes(old(io)) == Nodes(r) + Nodes(rest) && Nodes(r) !! Nodes(rest)
      ensures Cut(old(Times(Inorder(io))), |Inorder(r)|, rest, now)
      ensures Where() == AllGone(old(Where()).(io := Nodes(rest)), Post(r), choose)
      ensures Arrived(Where(), Nodes(r), choose)
    {
      var ret;
      ghost var was := Where();
      assert allocated(Nodes(io));
      ret, r := TakeIoFront(now);
      rest := io;
      SplitThreads(was, Nodes(r), Nodes(rest));
      visited := Travel(ret, choose, r);
    }

    method TakeSleepFront(now: int) returns (ret: Node?, ghost r: T)
      requires Valid() && (RootDue(sl, now) || NoneDue(Inorder(sl), now))
      modifies this`sl, sleepPool`root, Nodes(sl)`parent, Nodes(sl)`left, Nodes(sl)`right, Nodes(sl)`color
      ensures Valid() && Apart(Nodes(r)) && ret == Root(r) && Dist(r) && Rep(r, null)
      ensures Nodes(old(sl)) == Nodes(r) + Nodes(sl) && Inorder(old(sl)) == Inorder(r) + Inorder(sl)
      ensures Cut(old(Times(Inorder(sl))), |Inorder(r)|, sl, now)
    {
      ghost var rest;
      assert allocated(Nodes(sl));
      ret, r, rest := TakeBeside(sleepPool, now, sl, Sleep, ioPool, io, Run, stopThreads);
      SetSl(rest);
    }

    /** process_sleep: the same for the sleep pool. */
    method ProcessSleep(now: int, choose: Node -> Outcome) returns (ghost r: T, ghost rest: T, ghost visited: seq<Node>)
      requires Valid() && (RootDue(sl, now) || NoneDue(Inorder(sl), now))
      modifies this`io, this`sl, this`stopThreads, ioPool, sleepPool, Nodes(sl)
      modifies Nodes(io)`parent, Nodes(io)`left, Nodes(io)`right, Nodes(io)`color
      ensures Valid() && All() == old(All()) && visited == Post(r)
      ensures Inorder(old(sl)) == Inorder(r) + Inorder(rest) && Nodes(old(sl)) == Nodes(r) + Nodes(rest) && Nodes(r) !! Nodes(rest)
      ensures Cut(old(Times(Inorder(sl))), |Inorder(r)|, rest, now)
      ensures Where() == AllGone(old(Where()).(sl := Nodes(rest)), Post(r), choose)
      ensures Arrived(Where(), Nodes(r), choose)
    {
      var ret;
      ghost var was := Where();
      assert allocated(Nodes(sl));
      ret, r := TakeSleepFront(now);
      rest := sl;
      SplitThreads(was, Nodes(r), Nodes(rest));
      visited := Travel(ret, choose, r);
    }

    /** handle_accept: a new thread, in no pool, runs for the first time. */
    method HandleAccept(o: Outcome) returns (th: Node)
      requires Valid()
      modifies this`io, this`sl, this`stopThreads, ioPool, sleepPool
      modifies Nodes(io)`parent, Nodes(io)`left, Nodes(io)`right, Nodes(io)`color
      modifies Nodes(sl)`parent, Nodes(sl)`left, Nodes(sl)`right, Nodes(sl)`color
      ensures Valid() && fresh(th) && All() == old(All()) + {th}
      ensures Where() == Gone(old(Where()), th, o) && Timed(th, o)
    {
      InorderSet(io); InorderSet(sl);
      assert allocated(Nodes(io)) && allocated(Inorder(io)) && allocated(Nodes(sl)) && allocated(Inorder(sl)) && allocated(stopThreads);
      th := new Node();
      ThreadResume(th, o);
    }

    /** The start of a turn of the worker's loop: the stop list is emptied, the rest stays. */
    method StartTurn()
      requires Valid()
      modifies this`stopThreads
      ensures Valid() && stopThreads == [] && All() == old(Nodes(io) + Nodes(sl))
    {
      stopThreads := [];
    }
  }
}
