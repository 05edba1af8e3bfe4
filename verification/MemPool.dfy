/** c/src/mem_pool.c with the search of c/src/utils.h: blocks of a few fixed sizes, kept on one free
    list per size. While a block is free its header links to the next free one; while it is in use
    the same word names its size class. */
module MemPool {
  const SizeMax: nat := 0xFFFF_FFFF_FFFF_FFFF
  const Header: nat := 8

  datatype Link = ToField(field: nat) | ToNext(next: Block?)

  /** What malloc leaves in a block: any bytes at all. */
  method Garbage(size: nat) returns (bytes: seq<bv8>)
    ensures |bytes| == size
  {
    assert |seq(size, _ => 0 as bv8)| == size;
    bytes :| |bytes| == size;
  }

  class Block {
    var link: Link
    var data: seq<bv8>   // as long as the block was allocated

    constructor (link: Link, size: nat)
      ensures this.link == link && |data| == size
    {
      this.link := link;
      var bytes := Garbage(size);
      data := bytes;
    }
  }

  // ---------- Sorting the sizes ----------

  ghost predicate Sorted(a: seq<nat>) { forall i: nat, j: nat :: i < j < |a| ==> a[i] <= a[j] }

  /** The first `i` sizes are in their final place. */
  ghost predicate Settled(a: seq<nat>, i: nat) {
    forall j: nat, k: nat :: j < i && j < k < |a| ==> a[j] <= a[k]
  }

  function Swapped(a: seq<nat>, i: nat, j: nat): seq<nat>
    requires i < |a| && j < |a|
  {
    a[i := a[j]][j := a[i]]
  }

  lemma SwapKeeps(a: seq<nat>, i: nat, j: nat)
    requires i < j < |a|
    ensures multiset(Swapped(a, i, j)) == multiset(a)
  {
  }

  lemma SwapSettled(a: seq<nat>, i: nat, j: nat)
    requires i < j < |a| && Settled(a, i)
    ensures Settled(Swapped(a, i, j), i)
  {
  }

  /** One exchange. */
  method Exchange(f: array<nat>, n: nat, i: nat, j: nat)
    requires i < j < n < f.Length && Settled(f[..n], i)
    modifies f
    ensures multiset(f[..n]) == multiset(old(f[..n])) && Settled(f[..n], i)
    ensures f[i] == if old(f[i]) > old(f[j]) then old(f[j]) else old(f[i])
    ensures f[j] == if old(f[i]) > old(f[j]) then old(f[i]) else old(f[j])
    ensures forall k: nat :: k < f.Length && k != i && k != j ==> f[k] == old(f[k])
  {
    if f[i] > f[j] {
      ghost var a := f[..n];
      SwapKeeps(a, i, j); SwapSettled(a, i, j);
      var tmp := f[i];
      f[i] := f[j];
      f[j] := tmp;
      assert f[..n] == Swapped(a, i, j);
    }
  }

  /** The exchange sort of memp_new; the sentinel behind the sizes stays where it is. */
  method SortSizes(f: array<nat>, n: nat)
    requires n + 1 == f.Length
    modifies f
    ensures Sorted(f[..n]) && multiset(f[..n]) == multiset(old(f[..n])) && f[n] == old(f[n])
  {
    var i: nat := 0;
    while i < n - 1
      invariant multiset(f[..n]) == multiset(old(f[..n])) && f[n] == old(f[n])
      invariant i <= n && Settled(f[..n], i)
      decreases n - i
    {
      var j := i + 1;
      while j < n
        invariant i < j <= n && multiset(f[..n]) == multiset(old(f[..n])) && f[n] == old(f[n])
        invariant Settled(f[..n], i) && forall k: nat :: i < k < j ==> f[i] <= f[k]
        decreases n - j
      {
        Exchange(f, n, i, j);
        j := j + 1;
      }
      SettleOne(f[..n], i);
      i := i + 1;
    }
  }

  lemma SettleOne(a: seq<nat>, i: nat)
    requires i < |a| && Settled(a, i) && forall k: nat :: i < k < |a| ==> a[i] <= a[k]
    ensures Settled(a, i + 1)
  {
  }

  /** The sizes of a new pool, and the sentinel behind them. */
  method SortedSizes(fsize: seq<nat>) returns (f: array<nat>)
    requires forall i: nat :: i < |fsize| ==> fsize[i] + Header <= SizeMax
    ensures fresh(f) && f.Length == |fsize| + 1 && Sorted(f[..|fsize|]) && f[|fsize|] == SizeMax
    ensures multiset(f[..|fsize|]) == multiset(fsize)
    ensures forall i: nat :: i < |fsize| ==> f[i] + Header <= SizeMax
  {
    var n := |fsize|;
    f := new nat[n + 1];
    for i := 0 to n
      invariant forall j: nat :: j < i ==> f[j] == fsize[j]
    {
      f[i] := fsize[i];
    }
    f[n] := SizeMax;
    assert f[..n] == fsize;
    SortSizes(f, n);
    SameElements(fsize, f[..n]);
    assert forall i: nat :: i < n ==> f[..n][i] == f[i];
  }

  // ---------- Choosing a class ----------

  /** binary_search, over the first `n` sizes: nothing before the result is large enough, and nothing
      after it is needed. */
  method BinarySearch(f: array<nat>, n: nat, key: nat) returns (at: nat)
    requires 1 <= n < f.Length && Sorted(f[..n])
    ensures at < n
    ensures f[at] == key || ((forall j: nat :: j < at ==> f[j] < key) && forall j: nat :: at < j < n ==> f[j] > key)
  {
    var left: nat, right: int := 0, n - 1;
    while left < right
      invariant left <= n - 1 && right <= n - 1 && left <= right + 1
      invariant forall j: nat :: j < left ==> f[j] < key
      invariant forall j: nat :: right < j < n ==> f[j] > key
      decreases right - left
    {
      var mid: nat := (left + right) / 2;
      assert forall j: nat :: j < n ==> f[..n][j] == f[j];
      if f[mid] == key {
        left := mid;
        break;
      } else if f[mid] < key {
        left := mid + 1;
      } else {
        right := mid - 1;
      }
    }
    at := left;
  }

  /** Class `k` is the smallest that fits; class n, behind all the others, is for what fits in none. */
  ghost predicate BestClass(sizes: seq<nat>, n: nat, k: nat, size: nat)
    requires n < |sizes|
  {
    && k <= n
    && (k < n ==> sizes[k] >= size && forall j: nat :: j < n && sizes[j] >= size ==> sizes[k] <= sizes[j])
    && (k == n ==> forall j: nat :: j < n ==> sizes[j] < size)
  }

  method ChooseClass(f: array<nat>, n: nat, size: nat) returns (i: nat)
    requires 1 <= n < f.Length && Sorted(f[..n])
    ensures BestClass(f[..], n, i, size)
  {
    assert forall j: nat :: j < n ==> f[..n][j] == f[j];
    i := BinarySearch(f, n, size);
    if f[i] < size {
      i := i + 1;
    }
  }

  // ---------- Sums over the classes ----------

  /** The bytes of `counts[i]` blocks of size `sizes[i]`, for the first k classes. */
  function Weighted(sizes: seq<nat>, counts: seq<nat>, k: nat): nat
    requires k <= |sizes| && k <= |counts|
  {
    if k == 0 then 0 else Weighted(sizes, counts, k - 1) + sizes[k - 1] * counts[k - 1]
  }

  lemma {:induction false} WeightedUpdate(sizes: seq<nat>, counts: seq<nat>, k: nat, i: nat, c: nat)
    requires k <= |sizes| && k <= |counts| && i < |counts| && (c == counts[i] + 1 || c + 1 == counts[i])
    ensures i >= k ==> Weighted(sizes, counts[i := c], k) == Weighted(sizes, counts, k)
    ensures i < k && c > counts[i] ==> Weighted(sizes, counts[i := c], k) == Weighted(sizes, counts, k) + sizes[i]
    ensures i < k && c < counts[i] ==> Weighted(sizes, counts[i := c], k) == Weighted(sizes, counts, k) - sizes[i]
  {
    if k > 0 {
      WeightedUpdate(sizes, counts, k - 1, i, c);
      if i == k - 1 { TimesNext(sizes[i], counts[i], c); }
    }
  }

  lemma TimesNext(s: nat, x: nat, c: nat)
    requires c == x + 1 || c + 1 == x
    ensures c > x ==> s * c == s * x + s
    ensures c < x ==> s * c == s * x - s
  {
  }

  lemma {:induction false} WeightedZero(sizes: seq<nat>, counts: seq<nat>, k: nat)
    requires k <= |sizes| && k <= |counts| && forall i: nat :: i < k ==> counts[i] == 0
    ensures Weighted(sizes, counts, k) == 0
  {
    if k > 0 { WeightedZero(sizes, counts, k - 1); }
  }

  lemma SameElements(a: seq<nat>, b: seq<nat>)
    requires multiset(a) == multiset(b) && forall i: nat :: i < |a| ==> a[i] + Header <= SizeMax
    ensures |a| == |b| && forall i: nat :: i < |b| ==> b[i] + Header <= SizeMax
  {
    assert |multiset(a)| == |multiset(b)|;
    forall i: nat | i < |b| ensures b[i] + Header <= SizeMax {
      assert b[i] in multiset(b);
      assert b[i] in multiset(a);
    }
  }

  function Lengths(lists: seq<seq<Block>>): (r: seq<nat>)
    ensures |r| == |lists| && forall i: nat :: i < |r| ==> r[i] == |lists[i]|
  {
    seq(|lists|, (i: nat) requires i < |lists| => |lists[i]|)
  }

  function Cards(live: seq<set<Block>>): (r: seq<nat>)
    ensures |r| == |live| && forall i: nat :: i < |r| ==> r[i] == |live[i]|
  {
    seq(|live|, (i: nat) requires i < |live| => |live[i]|)
  }

  // ---------- Free lists and blocks in use ----------

  function Following(list: seq<Block>, a: nat): Block? { if a + 1 < |list| then list[a + 1] else null }

  /** The blocks of a free list, each linked to the next: so the list is acyclic and ends. */
  ghost predicate Linked(h: Block?, list: seq<Block>, size: nat)
    reads list
  {
    && h == (if |list| == 0 then null else list[0])
    && forall a: nat :: a < |list| ==>
      list[a].link.ToNext? && list[a].link.next == Following(list, a) && |list[a].data| == size
  }

  lemma LinkedTail(h: Block?, list: seq<Block>, size: nat)
    requires h != null && Linked(h, list, size)
    ensures |list| > 0 && h == list[0] && h in list && h.link.ToNext? && Linked(h.link.next, list[1..], size)
    ensures |h.data| == size
  {
    var rest := list[1..];
    assert h == list[0];
    forall a: nat | a < |rest|
      ensures rest[a].link.ToNext? && rest[a].link.next == Following(rest, a) && |rest[a].data| == size
    {
      assert rest[a] == list[a + 1];
    }
  }

  lemma LinkedFront(d: Block, h: Block?, list: seq<Block>, size: nat)
    requires Linked(h, list, size) && d !in list && d.link == ToNext(h) && |d.data| == size
    ensures Linked(d, [d] + list, size)
  {
    var all := [d] + list;
    forall a: nat | a < |all|
      ensures all[a].link.ToNext? && all[a].link.next == Following(all, a) && |all[a].data| == size
    {
      if a > 0 { assert all[a] == list[a - 1]; }
    }
  }

  ghost predicate NoRepeat(list: seq<Block>) { forall a: nat, b: nat :: a < b < |list| ==> list[a] != list[b] }

  ghost predicate NotIn(list: seq<Block>, blocks: set<Block>) { forall b :: b in list ==> b !in blocks }

  ghost predicate NotInList(list: seq<Block>, other: seq<Block>) { forall b :: b in list ==> b !in other }

  ghost predicate Distinct(x: set<Block>, y: set<Block>) { x !! y }

  /** No block is in two places: free lists and blocks in use, class by class, are disjoint. */
  ghost predicate Apart(lists: seq<seq<Block>>, live: seq<set<Block>>) {
    && (forall i: nat :: i < |lists| ==> NoRepeat(lists[i]))
    && (forall i: nat, j: nat :: i < j < |lists| ==> NotInList(lists[i], lists[j]))
    && (forall i: nat, j: nat :: i < |lists| && j < |live| ==> NotIn(lists[i], live[j]))
    && (forall i: nat, j: nat :: i < j < |live| ==> Distinct(live[i], live[j]))
  }

  lemma CountPop(sizes: seq<nat>, lists: seq<seq<Block>>, n: nat, k: nat)
    requires k < n == |lists| <= |sizes| && |lists[k]| > 0
    ensures Weighted(sizes, Lengths(lists[k := lists[k][1..]]), n) == Weighted(sizes, Lengths(lists), n) - sizes[k]
  {
    WeightedUpdate(sizes, Lengths(lists), n, k, |lists[k]| - 1);
    assert Lengths(lists[k := lists[k][1..]]) == Lengths(lists)[k := |lists[k]| - 1];
  }

  lemma CountPush(sizes: seq<nat>, lists: seq<seq<Block>>, n: nat, k: nat, d: Block)
    requires k < n == |lists| <= |sizes|
    ensures Weighted(sizes, Lengths(lists[k := [d] + lists[k]]), n) == Weighted(sizes, Lengths(lists), n) + sizes[k]
  {
    WeightedUpdate(sizes, Lengths(lists), n, k, |lists[k]| + 1);
    assert Lengths(lists[k := [d] + lists[k]]) == Lengths(lists)[k := |lists[k]| + 1];
  }

  lemma CountAdd(sizes: seq<nat>, live: seq<set<Block>>, n: nat, k: nat, d: Block)
    requires n < |live| <= |sizes| && k <= n && d !in live[k]
    ensures Weighted(sizes, Cards(live[k := live[k] + {d}]), n) == Weighted(sizes, Cards(live), n) + if k < n then sizes[k] else 0
  {
    WeightedUpdate(sizes, Cards(live), n, k, |live[k]| + 1);
    assert Cards(live[k := live[k] + {d}]) == Cards(live)[k := |live[k]| + 1];
  }

  lemma CountDrop(sizes: seq<nat>, live: seq<set<Block>>, n: nat, k: nat, d: Block)
    requires n < |live| <= |sizes| && k <= n && d in live[k]
    ensures Weighted(sizes, Cards(live[k := live[k] - {d}]), n) == Weighted(sizes, Cards(live), n) - (if k < n then sizes[k] else 0)
  {
    WeightedUpdate(sizes, Cards(live), n, k, |live[k]| - 1);
    assert Cards(live[k := live[k] - {d}]) == Cards(live)[k := |live[k]| - 1];
  }

  ghost predicate Fresh(lists: seq<seq<Block>>, live: seq<set<Block>>, d: Block) {
    (forall i: nat :: i < |lists| ==> d !in lists[i]) && forall i: nat :: i < |live| ==> d !in live[i]
  }

  lemma {:induction false} ApartAdd(lists: seq<seq<Block>>, live: seq<set<Block>>, k: nat, d: Block)
    requires Apart(lists, live) && k < |live| && Fresh(lists, live, d)
    ensures Apart(lists, live[k := live[k] + {d}])
  {
  }

  lemma {:induction false} ApartPop(lists: seq<seq<Block>>, live: seq<set<Block>>, k: nat)
    requires Apart(lists, live) && k < |lists| && |lists[k]| > 0
    ensures Apart(lists[k := lists[k][1..]], live) && Fresh(lists[k := lists[k][1..]], live, lists[k][0])
  {
    var d, rest := lists[k][0], lists[k][1..];
    assert NoRepeat(lists[k]);
    assert NoRepeat(rest);
    assert forall b :: b in rest ==> b in lists[k];
    var now := lists[k := rest];
    forall i: nat | i < |lists| ensures d !in now[i] {
      if i < k { assert NotInList(lists[i], lists[k]); }
      if i > k { assert NotInList(lists[k], lists[i]); }
    }
  }

  lemma {:induction false} ApartDrop(lists: seq<seq<Block>>, live: seq<set<Block>>, k: nat, d: Block)
    requires Apart(lists, live) && k < |live| && d in live[k]
    ensures Apart(lists, live[k := live[k] - {d}]) && Fresh(lists, live[k := live[k] - {d}], d)
  {
  }

  lemma {:induction false} ApartPush(lists: seq<seq<Block>>, live: seq<set<Block>>, k: nat, d: Block)
    requires Apart(lists, live) && k < |lists| && Fresh(lists, live, d)
    ensures Apart(lists[k := [d] + lists[k]], live)
  {
    assert NoRepeat(lists[k]);
  }

  class Pool {
    const n: nat
    const sizes: array<nat>        // the sizes, smallest first, and the sentinel
    const header: array<Block?>    // the free lists
    var empty: int
    var used: int
    ghost var lists: seq<seq<Block>>   // the free blocks of each class
    ghost var live: seq<set<Block>>    // the blocks in use; those of no class come last
    ghost var repr: set<Block>

    ghost predicate Shape()
      reads sizes
    {
      && 1 <= n <= 255 && sizes.Length == header.Length == n + 1
      && Sorted(sizes[..n]) && sizes[n] == SizeMax && forall i: nat :: i < n ==> sizes[i] + Header <= SizeMax
    }

    ghost predicate ListOk(i: nat)
      reads this`lists, this`repr, sizes, header, repr
      requires Shape() && i < |lists| == n
    {
      (forall b :: b in lists[i] ==> b in repr) && Linked(header[i], lists[i], sizes[i])
    }

    ghost predicate FreeOk()
      reads this`lists, this`repr, sizes, header, repr
      requires Shape()
    {
      |lists| == n && header[n] == null && forall i: nat :: i < n ==> ListOk(i)
    }

    /** A block in use knows its class, and is as large as the class says, or larger than all. */
    ghost predicate InUse(b: Block, i: nat)
      reads sizes, b
      requires Shape()
    {
      b.link == ToField(i) && if i < n then |b.data| == sizes[i] else |b.data| > sizes[n - 1]
    }

    ghost predicate ClassOk(i: nat)
      reads this`live, this`repr, sizes, repr
      requires Shape() && i < |live|
    {
      forall b :: b in live[i] ==> b in repr && InUse(b, i)
    }

    ghost predicate LiveOk()
      reads this`live, this`repr, sizes, repr
      requires Shape()
    {
      |live| == n + 1 && forall i: nat :: i <= n ==> ClassOk(i)
    }

    ghost predicate EmptyOk()
      reads this`lists, this`empty, sizes
      requires Shape()
    {
      |lists| == n && empty == Weighted(sizes[..], Lengths(lists), n)
    }

    ghost predicate UsedOk()
      reads this`live, this`used, sizes
      requires Shape()
    {
      |live| == n + 1 && used == Weighted(sizes[..], Cards(live), n)
    }

    ghost predicate Valid()
      reads this, sizes, header, repr
    {
      Shape() && FreeOk() && LiveOk() && Apart(lists, live) && EmptyOk() && UsedOk()
    }

    /** The working part of memp_new. The class count is kept in an uint8_t. */
    constructor (fsize: seq<nat>)
      requires 1 <= |fsize| <= 255 && forall i: nat :: i < |fsize| ==> fsize[i] + Header <= SizeMax
      ensures Valid() && fresh(sizes) && fresh(header) && n == |fsize| && multiset(sizes[..n]) == multiset(fsize)
      ensures empty == used == 0 && repr == {}
    {
      var f := SortedSizes(fsize);
      n, sizes := |fsize|, f;
      header := new Block?[|fsize| + 1](_ => null);
      lists := seq(|fsize|, _ => []);
      live := seq(|fsize| + 1, _ => {});
      repr := {};
      empty, used := 0, 0;
      new;
      assert Shape();
      assert forall i: nat :: i < n ==> lists[i] == [] && header[i] == null;
      assert forall i: nat :: i <= n ==> live[i] == {};
      WeightedZero(sizes[..], Lengths(lists), n);
      WeightedZero(sizes[..], Cards(live), n);
    }

    /** memp_new. */
    static method New(fsize: seq<nat>, granted: bool) returns (p: Pool?)
      requires |fsize| <= 255 && forall i: nat :: i < |fsize| ==> fsize[i] + Header <= SizeMax
      ensures p == null <==> fsize == [] || !granted
      ensures p != null ==> p.Valid() && fresh(p) && fresh(p.sizes) && fresh(p.header) && p.repr == {}
      ensures p != null ==> p.n == |fsize| && multiset(p.sizes[..p.n]) == multiset(fsize) && p.empty == p.used == 0
    {
      if |fsize| < 1 || !granted { return null; }
      p := new Pool(fsize);
    }

    /** The first block of a class's free list is taken off it; its link still holds the next one. */
    method Pop(k: nat) returns (d: Block)
      requires Valid() && k < n && header[k] != null
      modifies this`lists, header, this`empty
      ensures Valid() && |old(lists)[k]| > 0 && d == old(lists)[k][0] && Fresh(lists, live, d)
      ensures lists == old(lists)[k := old(lists)[k][1..]] && d in repr && |d.data| == sizes[k]
    {
      assert ListOk(k);
      LinkedTail(header[k], lists[k], sizes[k]);
      CountPop(sizes[..], lists, n, k);
      ApartPop(lists, live, k);
      d := header[k];
      lists := lists[k := lists[k][1..]];
      header[k] := d.link.next;
      empty := empty - sizes[k];
      forall i: nat | i < n ensures ListOk(i) {
        assert old(ListOk(i));
      }
    }

    /** The link of a block that is nowhere may be set at will. */
    method SetLink(d: Block, link: Link)
      requires Valid() && Fresh(lists, live, d)
      modifies d`link
      ensures Valid() && d.link == link
    {
      d.link := link;
      forall i: nat | i < n ensures ListOk(i) {
        assert old(ListOk(i)) && d !in lists[i];
      }
      forall i: nat | i <= n ensures ClassOk(i) {
        assert old(ClassOk(i)) && d !in live[i];
      }
    }

    ghost method Adopt(d: Block)
      requires Valid() && Fresh(lists, live, d)
      modifies this`repr
      ensures Valid() && repr == old(repr) + {d}
    {
      repr := repr + {d};
      forall i: nat | i < n ensures ListOk(i) { assert old(ListOk(i)); }
      forall i: nat | i <= n ensures ClassOk(i) { assert old(ClassOk(i)); }
    }

    /** Block `d`, on no list and not in use, becomes a block in use of class k. */
    method Lend(d: Block, k: nat)
      requires Valid() && k <= n && Fresh(lists, live, d)
      requires if k < n then |d.data| == sizes[k] else |d.data| > sizes[n - 1]
      modifies d`link, this`live, this`repr, this`used
      ensures Valid() && live == old(live)[k := old(live)[k] + {d}] && repr == old(repr) + {d} && d in live[k]
    {
      SetLink(d, ToField(k));
      Adopt(d);
      Enter(d, k);
    }

    method Enter(d: Block, k: nat)
      requires Valid() && k <= n && Fresh(lists, live, d) && d in repr && InUse(d, k)
      modifies this`live, this`used
      ensures Valid() && live == old(live)[k := old(live)[k] + {d}]
    {
      CountAdd(sizes[..], live, n, k, d);
      ApartAdd(lists, live, k, d);
      live := live[k := live[k] + {d}];
      if k < n {
        used := used + sizes[k];
      }
      forall i: nat | i <= n ensures ClassOk(i) {
        assert old(ClassOk(i));
      }
    }

    /** A block in use ceases to be one. */
    method TakeBack(d: Block, k: nat)
      requires Valid() && k <= n && d in live[k]
      modifies this`live, this`used
      ensures Valid() && live == old(live)[k := old(live)[k] - {d}] && Fresh(lists, live, d) && d in repr
    {
      assert ClassOk(k);
      CountDrop(sizes[..], live, n, k, d);
      ApartDrop(lists, live, k, d);
      live := live[k := live[k] - {d}];
      if k < n {
        used := used - sizes[k];
      }
      forall i: nat | i <= n ensures ClassOk(i) {
        assert old(ClassOk(i));
      }
    }

    /** A block of class k that is nowhere goes to the front of that class's free list. */
    method Push(d: Block, k: nat)
      requires Valid() && k < n && Fresh(lists, live, d) && d in repr && |d.data| == sizes[k]
      modifies d`link, this`lists, this`empty, header
      ensures Valid() && lists == old(lists)[k := [d] + old(lists)[k]]
    {
      SetLink(d, ToNext(header[k]));
      Front(d, k);
    }

    /** The list's header leads to the block that links to the old first one. */
    method Front(d: Block, k: nat)
      requires Valid() && k < n && Fresh(lists, live, d) && d in repr && |d.data| == sizes[k] && d.link == ToNext(header[k])
      modifies this`lists, this`empty, header
      ensures Valid() && lists == old(lists)[k := [d] + old(lists)[k]]
    {
      CountPush(sizes[..], lists, n, k, d);
      ApartPush(lists, live, k, d);
      assert ListOk(k);
      LinkedFront(d, header[k], lists[k], sizes[k]);
      header[k] := d;
      lists := lists[k := [d] + lists[k]];
      empty := empty + sizes[k];
      forall i: nat | i < n ensures ListOk(i) {
        assert old(ListOk(i));
      }
    }

    /** A block that is nowhere goes back to the system. */
    method Release(d: Block)
      requires Valid() && Fresh(lists, live, d)
      modifies this`repr
      ensures Valid() && repr == old(repr) - {d}
    {
      repr := repr - {d};
      forall i: nat | i < n ensures ListOk(i) {
        assert old(ListOk(i)) && d !in lists[i];
      }
      forall i: nat | i <= n ensures ClassOk(i) {
        assert old(ClassOk(i)) && d !in live[i];
      }
    }

    lemma NowhereYet(d: Block)
      requires Valid() && d !in repr
      ensures Fresh(lists, live, d)
    {
      forall i: nat | i < n ensures d !in lists[i] { assert ListOk(i); }
      forall i: nat | i <= n ensures d !in live[i] { assert ClassOk(i); }
    }

    /** How long a block of class k is made, for a request that fits no class. */
    function Length(k: nat, size: nat): nat
      reads sizes
      requires Shape()
    {
      if k < n then sizes[k] else size
    }

    method FromSystem(k: nat, length: nat) returns (d: Block)
      requires Valid() && k <= n && if k < n then length == sizes[k] else length > sizes[n - 1]
      modifies this`live, this`repr, this`used
      ensures Valid() && fresh(d) && Fresh([], old(live), d) && d in live[k] && |d.data| == length
      ensures live == old(live)[k := old(live)[k] + {d}] && repr == old(repr) + {d}
    {
      d := new Block(ToField(k), length);
      NowhereYet(d);
      Lend(d, k);
    }

    method FromList(k: nat) returns (d: Block)
      requires Valid() && k < n && header[k] != null
      modifies this`empty, this`used, this`lists, this`live, this`repr, header, repr`link
      ensures Valid() && Fresh([], old(live), d) && d in live[k] && |d.data| == sizes[k]
      ensures |old(lists)[k]| > 0 && d == old(lists)[k][0] && lists == old(lists)[k := old(lists)[k][1..]]
      ensures live == old(live)[k := old(live)[k] + {d}] && repr == old(repr)
    {
      d := Pop(k);
      Lend(d, k);
      assert repr == old(repr);
    }

    lemma HeaderIsFirst(k: nat)
      requires Valid() && k < n
      ensures header[k] == null <==> |lists[k]| == 0
    {
      assert ListOk(k);
    }

    /** memp_alloc, for a system that grants memory or not. The smallest class that fits is chosen; its
        free list is used first. */
    method Alloc(size: nat, granted: bool) returns (d: Block?, ghost k: nat)
      requires Valid() && size + Header <= SizeMax
      modifies this`empty, this`used, this`lists, this`live, this`repr, header, repr`link
      ensures Valid() && (size > 0 ==> BestClass(sizes[..], n, k, size))
      ensures d == null <==> size == 0 || ((k == n || |old(lists)[k]| == 0) && !granted)
      ensures d == null ==> lists == old(lists) && live == old(live) && repr == old(repr)
      ensures d != null ==> Fresh([], old(live), d) && live == old(live)[k := old(live)[k] + {d}] && |d.data| == Length(k, size)
      ensures d != null ==> lists == Taken(old(lists), k)
      ensures d != null ==> if k < n && |old(lists)[k]| > 0 then d == old(lists)[k][0] else fresh(d)
      ensures forall b :: b in repr && b !in old(repr) ==> fresh(b)
    {
      k := 0;
      if size == 0 { return null, k; }
      var i := ChooseClass(sizes, n, size);
      k := i;
      if i >= n {
        if !granted { return null, k; }
        d := FromSystem(n, size);
      } else if header[i] != null {
        HeaderIsFirst(i);
        d := FromList(i);
      } else {
        HeaderIsFirst(i);
        if !granted { return null, k; }
        d := FromSystem(i, sizes[i]);
      }
    }

    /** A block in use, by its own link. */
    ghost predicate Lent(d: Block)
      reads this`live, d
    {
      d.link.ToField? && d.link.field <= n < |live| && d in live[d.link.field]
    }

    /** memp_recycle. */
    method Recycle(d: Block?)
      requires Valid() && (d != null ==> Lent(d))
      modifies this`empty, this`used, this`lists, this`live, this`repr, header, repr`link
      ensures Valid()
      ensures d == null ==> lists == old(lists) && live == old(live) && repr == old(repr)
      ensures d != null ==> var k := old(d.link).field;
        && live == old(live)[k := old(live)[k] - {d}] && lists == Given(old(lists), k, d)
        && repr == if k < n then old(repr) else old(repr) - {d}
    {
      if d == null { return; }
      var k := d.link.field;
      assert ClassOk(k);
      TakeBack(d, k);
      if sizes[k] == SizeMax {
        Release(d);
      } else {
        Push(d, k);
      }
    }

    // ---------- memp_realloc ----------

    /** memcpy: the first `len` bytes of one block go to another, which is in use. */
    method CopyTo(r: Block, d: Block, len: nat)
      requires Valid() && Lent(r) && len <= |d.data| && len <= |r.data|
      modifies r`data
      ensures Valid() && r.data == old(d.data[..len] + r.data[len..])
    {
      r.data := d.data[..len] + r.data[len..];
      LentNotFree(r);
      forall i: nat | i < n ensures ListOk(i) {
        assert old(ListOk(i)) && r !in lists[i];
      }
      forall i: nat | i <= n ensures ClassOk(i) {
        assert old(ClassOk(i));
      }
    }

    lemma LentNotFree(d: Block)
      requires Apart(lists, live) && Lent(d) && |lists| == n
      ensures forall i: nat :: i < n ==> d !in lists[i]
    {
      forall i: nat | i < n ensures d !in lists[i] {
        assert NotIn(lists[i], live[d.link.field]);
      }
    }

    lemma LentStays(d: Block, k: nat)
      requires Valid() && k <= n && d in live[k]
      ensures Lent(d) && d in repr && InUse(d, k)
    {
      assert ClassOk(k);
    }

    /** Block `r` begins with the first `len` bytes of `d`, which is no longer in use. */
    method Supplant(d: Block, r: Block, len: nat)
      requires Valid() && Lent(d) && Lent(r) && d != r && len <= |d.data| && len <= |r.data|
      modifies this`empty, this`used, this`lists, this`live, this`repr, header, repr`link, r`data
      ensures Valid() && Lent(r) && r.link == old(r.link) && |r.data| == old(|r.data|) && r.data[..len] == old(d.data[..len])
      ensures var k := old(d.link).field;
        && live == old(live)[k := old(live)[k] - {d}] && lists == Given(old(lists), k, d)
        && repr == if k < n then old(repr) else old(repr) - {d}
    {
      ghost var k := r.link.field;
      CopyTo(r, d, len);
      Recycle(d);
      LentStays(r, k);
    }

    /** Block `d` of class k0 has made way for `r` of class k, which begins with the same bytes. */
    ghost predicate Moved(was: seq<seq<Block>>, wasLive: seq<set<Block>>, d: Block, k0: nat, r: Block, k: nat, size: nat)
      reads this, sizes, r
      requires Shape() && k <= n == |was| && k0 <= n && |wasLive| == n + 1
    {
      && r != d && Fresh([], wasLive, r) && r.link == ToField(k) && |r.data| == Length(k, size)
      && lists == Given(Taken(was, k), k0, d) && live == Replaced(wasLive, k0, d, k, r)
      && (k < n && |was[k]| > 0 ==> r == was[k][0]) && (k0 == n ==> d !in repr)
    }

    /** Block `d`, in use, makes way for another that begins with the same bytes. */
    method MoveTo(d: Block, size: nat, len: nat, granted: bool) returns (r: Block?, ghost k: nat)
      requires Valid() && Lent(d) && 0 < size && size + Header <= SizeMax && len == Least(size, |d.data|)
      modifies this`empty, this`used, this`lists, this`live, this`repr, header, repr`link, repr`data
      ensures Valid() && BestClass(sizes[..], n, k, size)
      ensures r == null <==> (k == n || |old(lists)[k]| == 0) && !granted
      ensures r == null ==> lists == old(lists) && live == old(live) && repr == old(repr)
      ensures forall b :: b in old(repr) && b != r ==> b.data == old(b.data)
      ensures r != null ==> Lent(r) && Moved(old(lists), old(live), d, old(d.link).field, r, k, size)
      ensures r != null ==> |r.data| >= size && SamePrefix(r.data[..size], old(d.data))
    {
      ghost var k0 := d.link.field;
      LentStays(d, k0);
      r, k := Alloc(size, granted);
      if r != null {
        LentStays(d, k0);
        LentStays(r, k);
        assert allocated(old(repr));
        Supplant(d, r, len);
        ReplacedOrder(old(live), k0, d, k, r);
        PrefixCut(r.data, old(d.data), size);
      }
    }

    /** realloc on a block of no class, in place. */
    method Stretch(d: Block, size: nat)
      requires Valid() && d in live[n] && size > sizes[n - 1]
      modifies d`data
      ensures Valid() && |d.data| == size && SamePrefix(d.data[..size], old(d.data))
    {
      LentStays(d, n);
      LentNotFree(d);
      d.data := Resized(d.data, size);
      assert d.data[..size] == d.data;
      forall i: nat | i < n ensures ListOk(i) {
        assert old(ListOk(i)) && d !in lists[i];
      }
      forall i: nat | i <= n ensures ClassOk(i) {
        assert old(ClassOk(i));
        assert i < n ==> Distinct(live[i], live[n]);
      }
    }

    /** realloc by way of a new block. */
    method Relocate(d: Block, size: nat) returns (r: Block)
      requires Valid() && d in live[n] && size > sizes[n - 1]
      modifies this`empty, this`used, this`lists, this`live, this`repr, header, repr`link
      ensures Valid() && fresh(r) && |r.data| == size && SamePrefix(r.data[..size], old(d.data)) && Lent(r) && r.link == ToField(n)
      ensures live == Replaced(old(live), n, d, n, r) && Fresh([], old(live), r) && lists == old(lists) && d !in repr
    {
      LentStays(d, n);
      r := FromSystem(n, size);
      LentStays(d, n);
      LentStays(r, n);
      Supplant(d, r, Least(size, |d.data|));
      ReplacedOrder(old(live), n, d, n, r);
      PrefixCut(r.data, old(d.data), size);
    }

    /** realloc, granted: in place or not. */
    method SystemRealloc(d: Block, size: nat, moved: bool) returns (r: Block)
      requires Valid() && d in live[n] && size > sizes[n - 1]
      modifies this`empty, this`used, this`lists, this`live, this`repr, header, repr`link, d`data
      ensures Valid() && Lent(r) && r.link == ToField(n) && |r.data| == size && SamePrefix(r.data[..size], old(d.data))
      ensures if moved then fresh(r) && Fresh([], old(live), r) && d !in repr else r == d
      ensures r != d ==> d.data == old(d.data)
      ensures live == Replaced(old(live), n, d, n, r) && lists == old(lists)
    {
      if moved {
        r := Relocate(d, size);
      } else {
        Stretch(d, size);
        LentStays(d, n);
        ReplacedSelf(live, n, d);
        r := d;
      }
    }

    /** What a reallocation of a block of class k0 comes to. */
    function WayOf(k0: nat, size: nat): Way
      reads sizes
      requires Shape() && k0 <= n
    {
      if k0 < n then (if size <= sizes[k0] then Keep else Move)
      else if size <= sizes[n - 1] then Move
      else System
    }

    /** memp_realloc. A null block gives null, and size 0 recycles. Otherwise a block of a class that is
        long enough stays; a block that outgrows its class, or an oversize one that fits a class, makes way
        for a block that memp_alloc would give; an oversize one that still fits none is left to realloc.
        The outcome begins with the old bytes as far as both reach; or it is null, for want of memory, and
        the old block is as it was. */
    method Realloc(d: Block?, size: nat, granted: bool, moved: bool) returns (r: Block?, ghost k: nat)
      requires Valid() && size + Header <= SizeMax && (d != null ==> Lent(d))
      modifies this`empty, this`used, this`lists, this`live, this`repr, header, repr`link, repr`data
      ensures Valid()
      ensures d == null || size == 0 ==> r == null
      ensures d == null || (r == null && size > 0) ==> lists == old(lists) && live == old(live) && repr == old(repr)
      ensures d != null && size == 0 ==> var k0 := old(d.link).field;
        live == old(live)[k0 := old(live)[k0] - {d}] && lists == Given(old(lists), k0, d)
      ensures forall b :: b in old(repr) && b != r ==> b.data == old(b.data)
      ensures r != null ==> Lent(r) && |r.data| >= size && SamePrefix(r.data[..size], old(d.data))
      ensures d != null && size > 0 ==> match WayOf(old(d.link).field, size)
        case Keep => r == d && lists == old(lists) && live == old(live)
        case Move =>
          && BestClass(sizes[..], n, k, size)
          && (old(d.link).field == n ==> k < n)
          && (r == null <==> (k == n || |old(lists)[k]| == 0) && !granted)
          && (r != null ==> Moved(old(lists), old(live), d, old(d.link).field, r, k, size))
        case System =>
          && (r == null <==> !granted)
          && (r != null ==> r.link == ToField(n) && |r.data| == size && lists == old(lists))
          && (r != null ==> live == Replaced(old(live), n, d, n, r) && if moved then fresh(r) && d !in repr else r == d)
    {
      r, k := null, 0;
      if d == null { return; }
      LentStays(d, d.link.field);
      if size == 0 {
        Recycle(d);
        return;
      }
      var f := d.link.field;
      if sizes[f] == SizeMax {
        if size <= sizes[n - 1] {
          r, k := MoveTo(d, size, size, granted);
        } else if granted {
          r := SystemRealloc(d, size, moved);
        }
      } else if size > sizes[f] {
        r, k := MoveTo(d, size, sizes[f], granted);
      } else {
        r := d;
      }
    }
  }

  datatype Way = Keep | Move | System

  /** The free lists after a block of class k has been asked for. */
  ghost function Taken(lists: seq<seq<Block>>, k: nat): seq<seq<Block>> {
    if k < |lists| && |lists[k]| > 0 then lists[k := lists[k][1..]] else lists
  }

  /** The free lists after block `d` of class k has come back. */
  ghost function Given(lists: seq<seq<Block>>, k: nat, d: Block): seq<seq<Block>> {
    if k < |lists| then lists[k := [d] + lists[k]] else lists
  }

  /** What realloc makes of the bytes: the old ones as far as both lengths reach, then any. */
  method Resized(data: seq<bv8>, size: nat) returns (bytes: seq<bv8>)
    ensures |bytes| == size && SamePrefix(bytes, data)
  {
    if size <= |data| { return data[..size]; }
    var rest := Garbage(size - |data|);
    bytes := data + rest;
  }

  function Least(x: nat, y: nat): nat { if x < y then x else y }

  lemma PrefixCut(x: seq<bv8>, y: seq<bv8>, size: nat)
    requires |x| >= size && x[..Least(size, |y|)] == y[..Least(size, |y|)]
    ensures SamePrefix(x[..size], y)
  {
    assert x[..size][..Least(size, |y|)] == x[..Least(size, |y|)];
  }

  predicate SamePrefix(x: seq<bv8>, y: seq<bv8>) {
    if |x| <= |y| then x == y[..|x|] else x[..|y|] == y
  }

  lemma ReplacedSelf(live: seq<set<Block>>, k: nat, d: Block)
    requires k < |live| && d in live[k]
    ensures Replaced(live, k, d, k, d) == live
  {
    assert live[k] - {d} + {d} == live[k];
  }

  lemma ReplacedOrder(live: seq<set<Block>>, k: nat, d: Block, j: nat, r: Block)
    requires k < |live| && j < |live| && d != r
    ensures var more := live[j := live[j] + {r}]; more[k := more[k] - {d}] == Replaced(live, k, d, j, r)
  {
    var more := live[j := live[j] + {r}];
    assert live[k] + {r} - {d} == live[k] - {d} + {r};
    assert more[k := more[k] - {d}] == Replaced(live, k, d, j, r);
  }

  /** The blocks in use after `d` of class k has made way for `r` of class j. */
  ghost function Replaced(live: seq<set<Block>>, k: nat, d: Block, j: nat, r: Block): seq<set<Block>>
    requires k < |live| && j < |live|
  {
    var others := live[k := live[k] - {d}];
    others[j := others[j] + {r}]
  }
}
