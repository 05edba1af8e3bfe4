/** c/src/mem_slot.c: a bitmap of 8n units, bit 7 of a byte standing for its first unit. Runs are
    found byte by byte, with the leading and trailing clear bits of the bytes that are partly used. */
module Slot {
  // ---------- The bits of a byte ----------

  function Unit(k: nat): bv8
    requires k < 8
  {
    if k == 0 then 0x80 else if k == 1 then 0x40 else if k == 2 then 0x20 else if k == 3 then 0x10
    else if k == 4 then 0x08 else if k == 5 then 0x04 else if k == 6 then 0x02 else 0x01
  }

  /** Bit k of a byte, the highest bit being bit 0. */
  predicate On(x: bv8, k: nat)
    requires k < 8
  {
    x & Unit(k) != 0
  }

  /** bits_cl0_u8: how many bits are clear before the first that is set. */
  method LeadingZeros(flag: bv8) returns (n: nat)
    ensures n <= 7
    ensures flag == 0 ==> n == 7
    ensures flag != 0 ==> On(flag, n) && forall k: nat :: k < n ==> !On(flag, k)
  {
    var x := flag;
    n := 7;
    if x & 0xf0 != 0 {
      n := n - 4;
      x := x >> 4;
    }
    if x & 0xc != 0 {
      n := n - 2;
      x := x >> 2;
    }
    if x & 0x2 != 0 {
      n := n - 1;
    }
  }

  /** bits_ct0_u8: how many bits are clear after the last that is set. */
  method TrailingZeros(flag: bv8) returns (n: nat)
    ensures n <= 7
    ensures flag == 0 ==> n == 7
    ensures flag != 0 ==> On(flag, 7 - n) && forall k: nat :: 7 - n < k < 8 ==> !On(flag, k)
  {
    var x := flag;
    n := 0;
    if x & 0xf == 0 {
      n := n + 4;
      x := x >> 4;
    }
    if x & 0x3 == 0 {
      n := n + 2;
      x := x >> 2;
    }
    if x & 0x1 == 0 {
      n := n + 1;
    }
  }

  /** The two masks of a run: the low bytes of `0xff >> (offset % 8)` and of
      `0xff << (8 - offset0 % 8)`. Nothing is left of the second when `offset0 % 8` is 0. */
  method Masks(offset: nat, offset0: nat) returns (first: bv8, last: bv8)
    ensures AreMasks(first, last, offset % 8, offset0 % 8)
  {
    first := 0xff >> (offset % 8);
    last := ((0xff as bv16 << (8 - offset0 % 8)) & 0xff) as bv8;
  }

  ghost predicate AreMasks(first: bv8, last: bv8, r: nat, r0: nat) {
    forall k: nat :: k < 8 ==> (On(first, k) <==> r <= k) && (On(last, k) <==> k < r0)
  }

  lemma OnBoth(x: bv8, y: bv8, k: nat)
    requires k < 8
    ensures On(x & y, k) <==> On(x, k) && On(y, k)
  {
  }

  lemma OnEither(x: bv8, y: bv8, k: nat)
    requires k < 8
    ensures On(x | y, k) <==> On(x, k) || On(y, k)
  {
  }

  lemma OnNot(x: bv8, k: nat)
    requires k < 8
    ensures On(!x, k) <==> !On(x, k)
  {
  }

  lemma OnConstants()
    ensures forall k: nat :: k < 8 ==> !On(0, k) && On(0xff, k)
  {
  }

  lemma SameByte(x: bv8, y: bv8)
    requires forall k: nat :: k < 8 ==> (On(x, k) <==> On(y, k))
    ensures x == y
  {
    assert On(x, 0) <==> On(y, 0); assert On(x, 1) <==> On(y, 1);
    assert On(x, 2) <==> On(y, 2); assert On(x, 3) <==> On(y, 3);
    assert On(x, 4) <==> On(y, 4); assert On(x, 5) <==> On(y, 5);
    assert On(x, 6) <==> On(y, 6); assert On(x, 7) <==> On(y, 7);
  }

  // ---------- The bitmap as a sequence of booleans ----------

  predicate At(flag: seq<bv8>, o: nat)
    requires o < 8 * |flag|
  {
    On(flag[o / 8], o % 8)
  }

  function Bits(flag: seq<bv8>): (bits: seq<bool>)
    ensures |bits| == 8 * |flag|
    ensures forall o: nat :: o < |bits| ==> bits[o] == At(flag, o)
  {
    seq(8 * |flag|, (o: nat) requires o < 8 * |flag| => At(flag, o))
  }

  lemma SameFlags(f: seq<bv8>, g: seq<bv8>)
    requires Bits(f) == Bits(g)
    ensures f == g
  {
    forall i: nat | i < |f| ensures f[i] == g[i] {
      forall k: nat | k < 8 ensures On(f[i], k) <==> On(g[i], k) {
        var o := 8 * i + k;
        assert Bits(f)[o] == At(f, o) && Bits(g)[o] == At(g, o) && o / 8 == i && o % 8 == k;
      }
      SameByte(f[i], g[i]);
    }
  }

  predicate In(o: int, offset: int, len: int) { offset <= o < offset + len }

  /** The bits with those of one run set to `v`. */
  function Marked(bits: seq<bool>, offset: int, len: int, v: bool): (r: seq<bool>)
    ensures |r| == |bits|
    ensures forall o: nat :: o < |bits| ==> r[o] == if In(o, offset, len) then v else bits[o]
  {
    seq(|bits|, (o: nat) requires o < |bits| => if In(o, offset, len) then v else bits[o])
  }

  ghost predicate Clear(bits: seq<bool>, offset: nat, len: nat) {
    offset + len <= |bits| && forall o: nat :: In(o, offset, len) ==> !bits[o]
  }

  /** What a run covers of byte j. */
  function MaskAt(first: bv8, last: bv8, j: nat, i: nat, i0: nat): bv8 {
    if j == i == i0 then first & last else if j == i then first else if j == i0 then last
    else if i < j < i0 then 0xff else 0
  }

  lemma MaskBits(first: bv8, last: bv8, j: nat, offset: nat, offset0: nat, k: nat)
    requires k < 8 && offset <= offset0 && AreMasks(first, last, offset % 8, offset0 % 8)
    ensures On(MaskAt(first, last, j, offset / 8, offset0 / 8), k) <==> offset <= 8 * j + k < offset0
  {
    OnBoth(first, last, k);
    OnConstants();
  }

  function Masked(x: bv8, m: bv8, v: bool): bv8 { if v then x | m else x & !m }

  lemma MaskedBits(x: bv8, m: bv8, v: bool, k: nat)
    requires k < 8
    ensures On(Masked(x, m, v), k) <==> if On(m, k) then v else On(x, k)
  {
    OnNot(m, k); OnBoth(x, !m, k); OnEither(x, m, k);
  }

  lemma MaskedExtremes(x: bv8)
    ensures Masked(x, 0, true) == x && Masked(x, 0, false) == x
    ensures Masked(x, 0xff, true) == 0xff && Masked(x, 0xff, false) == 0
  {
  }

  /** The first and the last byte are masked, and those between are filled. */
  ghost predicate BytesMasked(f: seq<bv8>, g: seq<bv8>, i: nat, i0: nat, first: bv8, last: bv8, v: bool) {
    && i <= i0 < |f| == |g|
    && (i == i0 ==> g[i] == Masked(f[i], first & last, v))
    && (i < i0 ==> g[i] == Masked(f[i], first, v) && g[i0] == Masked(f[i0], last, v))
    && forall j: nat :: j < |f| && j != i && j != i0 ==> g[j] == if i < j < i0 then (if v then 0xff else 0) else f[j]
  }

  lemma ByteMasked(f: seq<bv8>, g: seq<bv8>, i: nat, i0: nat, first: bv8, last: bv8, v: bool, j: nat)
    requires BytesMasked(f, g, i, i0, first, last, v) && j < |f|
    ensures g[j] == Masked(f[j], MaskAt(first, last, j, i, i0), v)
  {
    MaskedExtremes(f[j]);
  }

  lemma MarksUnit(f: seq<bv8>, g: seq<bv8>, offset: nat, len: nat, first: bv8, last: bv8, v: bool, o: nat)
    requires AreMasks(first, last, offset % 8, (offset + len) % 8) && o < 8 * |f|
    requires BytesMasked(f, g, offset / 8, (offset + len) / 8, first, last, v)
    ensures At(g, o) <==> if In(o, offset, len) then v else At(f, o)
  {
    var i, i0, j := offset / 8, (offset + len) / 8, o / 8;
    ByteMasked(f, g, i, i0, first, last, v, j);
    MaskBits(first, last, j, offset, offset + len, o % 8);
    MaskedBits(f[j], MaskAt(first, last, j, i, i0), v, o % 8);
  }

  /** That marks the run and nothing else. */
  lemma MarksRun(f: seq<bv8>, g: seq<bv8>, offset: nat, len: nat, first: bv8, last: bv8, v: bool)
    requires AreMasks(first, last, offset % 8, (offset + len) % 8)
    requires BytesMasked(f, g, offset / 8, (offset + len) / 8, first, last, v)
    ensures Bits(g) == Marked(Bits(f), offset, len, v)
  {
    forall o: nat | o < 8 * |f| ensures Bits(g)[o] == Marked(Bits(f), offset, len, v)[o] {
      MarksUnit(f, g, offset, len, first, last, v, o);
    }
  }

  /** mark_used_flag: sets the bits of the run and no other. A run that ends with the last unit
      touches the byte after it too, with an empty mask. */
  method MarkUsed(flag: array<bv8>, offset: nat, len: nat)
    requires (offset + len) / 8 < flag.Length
    modifies flag
    ensures Bits(flag[..]) == Marked(Bits(old(flag[..])), offset, len, true)
  {
    ghost var was := flag[..];
    var offset0 := offset + len;
    var first, last := Masks(offset, offset0);
    UsedBytes(flag, offset / 8, offset0 / 8, first, last);
    MarksRun(was, flag[..], offset, len, first, last, true);
  }

  method UsedBytes(flag: array<bv8>, i: nat, i0: nat, first: bv8, last: bv8)
    requires i <= i0 < flag.Length
    modifies flag
    ensures BytesMasked(old(flag[..]), flag[..], i, i0, first, last, true)
  {
    if i == i0 {
      flag[i] := flag[i] | (first & last);
    } else {
      flag[i] := flag[i] | first;
      flag[i0] := flag[i0] | last;
      ghost var now := flag[..];
      for j := i + 1 to i0
        invariant forall k: nat :: k < flag.Length ==> flag[k] == if i < k < j then 0xff else now[k]
      {
        flag[j] := 0xff;
      }
    }
  }

  /** mark_free_flag: clears the bits of the run and no other. */
  method MarkFree(flag: array<bv8>, offset: nat, len: nat)
    requires (offset + len) / 8 < flag.Length
    modifies flag
    ensures Bits(flag[..]) == Marked(Bits(old(flag[..])), offset, len, false)
  {
    ghost var was := flag[..];
    var offset0 := offset + len;
    var first, last := Masks(offset, offset0);
    FreeBytes(flag, offset / 8, offset0 / 8, first, last);
    MarksRun(was, flag[..], offset, len, first, last, false);
  }

  method FreeBytes(flag: array<bv8>, i: nat, i0: nat, first: bv8, last: bv8)
    requires i <= i0 < flag.Length
    modifies flag
    ensures BytesMasked(old(flag[..]), flag[..], i, i0, first, last, false)
  {
    if i == i0 {
      flag[i] := flag[i] & !(first & last);
    } else {
      flag[i] := flag[i] & !first;
      flag[i0] := flag[i0] & !last;
      ghost var now := flag[..];
      for j := i + 1 to i0
        invariant forall k: nat :: k < flag.Length ==> flag[k] == if i < k < j then 0 else now[k]
      {
        flag[j] := 0;
      }
    }
  }

  // ---------- Which runs slot_alloc can see ----------

  /** A run that lies strictly inside one byte, between two units in use. */
  ghost predicate Inside(bits: seq<bool>, o: nat, size: nat) {
    exists p: nat, q: nat :: p < o && o + size <= q < |bits| && p / 8 == q / 8 && bits[p] && bits[q]
  }

  /** A free run of the first 8n units that does not lie strictly inside one byte. */
  ghost predicate Fits(bits: seq<bool>, n: nat, o: nat, size: nat) {
    o + size <= 8 * n && Clear(bits, o, size) && !Inside(bits, o, size)
  }

  /** From seven units on, that is every free run. */
  lemma {:induction false} LongRunsFit(bits: seq<bool>, n: nat, o: nat, size: nat)
    requires size >= 7 && |bits| == 8 * n + 8
    ensures Fits(bits, n, o, size) <==> o + size <= 8 * n && Clear(bits, o, size)
  {
  }

  /** A shorter one can be missed: 0x81 leaves a run of six that is never found. */
  lemma ShortRunMissed(size: nat)
    requires 1 <= size <= 6
    ensures Clear(Bits([0x81, 0]), 1, size) && forall o: nat :: !Fits(Bits([0x81, 0]), 1, o, size)
  {
    var flag: seq<bv8> := [0x81, 0];
    var bits := Bits(flag);
    assert At(flag, 0) && At(flag, 7);
    assert bits[0] && bits[7];
    assert !At(flag, 1) && !At(flag, 2) && !At(flag, 3) && !At(flag, 4) && !At(flag, 5) && !At(flag, 6);
    forall o: nat ensures !Fits(bits, 1, o, size) {
      if 0 < o && o + size <= 7 { assert Inside(bits, o, size); }
    }
  }

  /** Where the scan stands after i bytes: `empty` free units from `offset` on. */
  ghost predicate Scanned(bits: seq<bool>, n: nat, size: nat, i: nat, offset: nat, empty: nat) {
    && i <= n && |bits| == 8 * n + 8 && offset + empty <= 8 * n
    && Clear(bits, offset, empty) && !Inside(bits, offset, size)
    && (empty < size ==> offset + empty == 8 * i)
    && forall o: nat :: o < offset ==> !Fits(bits, n, o, size)
  }

  lemma AtByte(flag: seq<bv8>, i: nat, k: nat)
    requires i < |flag| && k < 8
    ensures Bits(flag)[8 * i + k] == On(flag[i], k)
  {
    assert At(flag, 8 * i + k) == On(flag[i], k);
  }

  lemma ScanZero(flag: seq<bv8>, n: nat, size: nat, i: nat, offset: nat, empty: nat)
    requires |flag| == n + 1 && Scanned(Bits(flag), n, size, i, offset, empty) && empty < size && i < n
    requires flag[i] == 0
    ensures Scanned(Bits(flag), n, size, i + 1, offset, empty + 8)
  {
    forall o: nat | In(o, offset, empty + 8) ensures !Bits(flag)[o] {
      if o >= 8 * i { AtByte(flag, i, o - 8 * i); OnConstants(); }
    }
  }

  lemma ScanLeading(flag: seq<bv8>, n: nat, size: nat, i: nat, offset: nat, empty: nat, leading: nat)
    requires |flag| == n + 1 && Scanned(Bits(flag), n, size, i, offset, empty) && empty < size && i < n
    requires leading <= 7 && (forall k: nat :: k < leading ==> !On(flag[i], k)) && empty + leading >= size
    ensures Scanned(Bits(flag), n, size, i + 1, offset, empty + leading)
  {
    forall o: nat | In(o, offset, empty + leading) ensures !Bits(flag)[o] {
      if o >= 8 * i { AtByte(flag, i, o - 8 * i); }
    }
  }

  /** No run begins between the old start and the last unit in use of byte i. */
  lemma {:induction false} ScanSkips(flag: seq<bv8>, n: nat, size: nat, i: nat, offset: nat, empty: nat, leading: nat, last: nat, o: nat)
    requires |flag| == n + 1 && Scanned(Bits(flag), n, size, i, offset, empty) && empty < size && i < n
    requires leading <= last <= 7 && On(flag[i], leading) && On(flag[i], last) && empty + leading < size
    requires o <= 8 * i + last
    ensures !Fits(Bits(flag), n, o, size)
  {
    var bits := Bits(flag);
    AtByte(flag, i, leading); AtByte(flag, i, last);
    var p, q := 8 * i + leading, 8 * i + last;
    if o >= offset {
      if o <= p {
        assert In(p, o, size);
      } else if q < o + size {
        assert In(q, o, size);
      } else {
        assert p / 8 == q / 8 && bits[p] && bits[q];
      }
    }
  }

  lemma ScanRestart(flag: seq<bv8>, n: nat, size: nat, i: nat, offset: nat, empty: nat, leading: nat, trailing: nat)
    requires |flag| == n + 1 && Scanned(Bits(flag), n, size, i, offset, empty) && empty < size && i < n
    requires leading <= 7 && On(flag[i], leading) && (forall k: nat :: k < leading ==> !On(flag[i], k)) && empty + leading < size
    requires trailing <= 7 && On(flag[i], 7 - trailing) && forall k: nat :: 7 - trailing < k < 8 ==> !On(flag[i], k)
    ensures Scanned(Bits(flag), n, size, i + 1, i * 8 + (8 - trailing), trailing)
  {
    var bits, start := Bits(flag), i * 8 + (8 - trailing);
    forall o: nat | o < start ensures !Fits(bits, n, o, size) {
      ScanSkips(flag, n, size, i, offset, empty, leading, 7 - trailing, o);
    }
    forall o: nat | 8 * i + 7 - trailing < o < 8 * i + 8 ensures !bits[o] {
      AtByte(flag, i, o - 8 * i);
    }
  }

  lemma ScanEnds(bits: seq<bool>, n: nat, size: nat, i: nat, offset: nat, empty: nat, o: nat)
    requires Scanned(bits, n, size, i, offset, empty) && i == n && empty < size
    ensures !Fits(bits, n, o, size)
  {
  }

  // ---------- Handing out and giving back ----------

  /** Giving back the run that was handed out restores the whole bitmap, bit for bit. */
  lemma {:induction false} FreeUndoesAlloc(f: seq<bv8>, g: seq<bv8>, h: seq<bv8>, n: nat, offset: nat, size: nat)
    requires Fits(Bits(f), n, offset, size)
    requires Bits(g) == Marked(Bits(f), offset, size, true) && Bits(h) == Marked(Bits(g), offset, size, false)
    ensures h == f
  {
    assert Bits(h) == Bits(f);
    SameFlags(h, f);
  }

  /** The byte after the units is written to, but never changed. */
  lemma {:induction false} SlackKept(f: seq<bv8>, g: seq<bv8>, n: nat, offset: nat, size: nat, v: bool)
    requires |f| == |g| == n + 1 && offset + size <= 8 * n && Bits(g) == Marked(Bits(f), offset, size, v)
    ensures g[n] == f[n]
  {
    forall k: nat | k < 8 ensures On(f[n], k) <==> On(g[n], k) {
      AtByte(f, n, k); AtByte(g, n, k);
    }
    SameByte(f[n], g[n]);
  }

  datatype Run = Run(offset: nat, size: nat)

  predicate Holds(r: Run, o: nat) { In(o, r.offset, r.size) }

  ghost predicate Covered(live: set<Run>, o: nat) { exists r :: r in live && Holds(r, o) }

  /** The units in use are those of the runs handed out, which do not overlap. */
  ghost predicate Tracks(bits: seq<bool>, live: set<Run>) {
    && (forall r: Run :: r in live ==> r.size > 0 && r.offset + r.size <= |bits|)
    && (forall o: nat :: o < |bits| ==> (bits[o] <==> Covered(live, o)))
    && (forall r: Run, s: Run, o: nat :: r in live && s in live && Holds(r, o) && Holds(s, o) ==> r == s)
  }

  lemma {:induction false} TracksAlloc(bits: seq<bool>, live: set<Run>, n: nat, r: Run)
    requires Tracks(bits, live) && r.size > 0 && |bits| == 8 * n + 8 && Fits(bits, n, r.offset, r.size)
    ensures r !in live && Tracks(Marked(bits, r.offset, r.size, true), live + {r})
  {
    assert Holds(r, r.offset) && !bits[r.offset];
    var after := Marked(bits, r.offset, r.size, true);
    forall o: nat | o < |bits| ensures after[o] <==> Covered(live + {r}, o) {
      if Holds(r, o) { assert r in live + {r}; }
      if s :| s in live && Holds(s, o) { assert s in live + {r}; }
    }
    forall s: Run, o: nat | s in live && Holds(s, o) ensures !Holds(r, o) { assert Covered(live, o); }
  }

  lemma {:induction false} TracksFree(bits: seq<bool>, live: set<Run>, r: Run)
    requires Tracks(bits, live) && r in live
    ensures Tracks(Marked(bits, r.offset, r.size, false), live - {r})
  {
    var after := Marked(bits, r.offset, r.size, false);
    forall o: nat | o < |bits| ensures after[o] <==> Covered(live - {r}, o) {
      if s :| s in live && Holds(s, o) {
        if s != r { assert s in live - {r}; }
        assert Covered(live, o);
      }
    }
  }

  class Slot {
    const n: nat
    const flag: array<bv8>   // one byte longer than the units need

    predicate Valid() { n <= 255 && flag.Length == n + 1 }

    /** slot_new. */
    constructor (n: nat)
      requires n <= 255
      ensures Valid() && fresh(flag) && this.n == n && forall o: nat :: o < 8 * n + 8 ==> !Bits(flag[..])[o]
    {
      this.n := n;
      flag := new bv8[n + 1](_ => 0);
      new;
      OnConstants();
      forall o: nat | o < 8 * n + 8 ensures !Bits(flag[..])[o] { AtByte(flag[..], o / 8, o % 8); }
    }

    /** The scan of slot_alloc: the lowest run that fits. */
    method Scan(size: nat) returns (offset: nat, empty: nat)
      requires Valid() && 0 < size <= 8 * n
      ensures empty >= size ==> Fits(Bits(flag[..]), n, offset, size) && forall o: nat :: o < offset ==> !Fits(Bits(flag[..]), n, o, size)
      ensures empty < size ==> forall o: nat :: !Fits(Bits(flag[..]), n, o, size)
    {
      ghost var bits := Bits(flag[..]);
      var i: nat := 0;
      offset, empty := 0, 0;
      while i < n && empty < size
        invariant Scanned(bits, n, size, i, offset, empty)
        decreases n - i
      {
        if flag[i] == 0 {
          ScanZero(flag[..], n, size, i, offset, empty);
          empty := empty + 8;
        } else {
          var leading := LeadingZeros(flag[i]);
          if empty + leading >= size {
            ScanLeading(flag[..], n, size, i, offset, empty, leading);
            empty := empty + leading;
          } else {
            var trailing := TrailingZeros(flag[i]);
            ScanRestart(flag[..], n, size, i, offset, empty, leading, trailing);
            empty := trailing;
            offset := i * 8 + (8 - empty);
          }
        }
        i := i + 1;
      }
      if empty < size {
        forall o: nat ensures !Fits(bits, n, o, size) { ScanEnds(bits, n, size, i, offset, empty, o); }
      }
    }

    /** slot_alloc: the lowest run that fits is marked, and no other bit changes; -1 exactly when no run
        fits or the size is zero. */
    method Alloc(size: nat) returns (offset: int)
      requires Valid()
      modifies flag
      ensures offset >= -1
      ensures offset == -1 <==> size == 0 || forall o: nat :: !Fits(old(Bits(flag[..])), n, o, size)
      ensures offset >= 0 ==> Fits(old(Bits(flag[..])), n, offset, size)
      ensures forall o: nat :: o < offset ==> !Fits(old(Bits(flag[..])), n, o, size)
      ensures Bits(flag[..]) == if offset >= 0 then Marked(old(Bits(flag[..])), offset, size, true) else old(Bits(flag[..]))
    {
      if size > 8 * n || size == 0 { return -1; }
      var start, empty := Scan(size);
      if empty >= size {
        MarkUsed(flag, start, size);
        return start;
      }
      return -1;
    }

    /** slot_free: clears the run; a range that leaves the units is ignored. A negative offset, or a sum
        that wraps around in 32 bits, would get past the test. */
    method Free(offset: int, size: nat)
      requires Valid() && offset >= 0 && offset + size < 0x1_0000_0000
      modifies flag
      ensures Bits(flag[..]) == if offset + size <= 8 * n then Marked(old(Bits(flag[..])), offset, size, false) else old(Bits(flag[..]))
    {
      if offset > 8 * n || offset + size > 8 * n { return; }
      MarkFree(flag, offset, size);
    }
  }
}
