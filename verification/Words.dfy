/** Unsigned words as numbers: the bitwise operators, bit by bit, and the two bit tricks of the
    buddy allocator. */
module Words {
  import opened Powers

  function And(x: nat, y: nat): nat {
    if x == 0 || y == 0 then 0 else 2 * And(x / 2, y / 2) + (if x % 2 == 1 && y % 2 == 1 then 1 else 0)
  }

  function Or(x: nat, y: nat): nat {
    if x == 0 then y else if y == 0 then x
    else 2 * Or(x / 2, y / 2) + (if x % 2 == 1 || y % 2 == 1 then 1 else 0)
  }

  const Modulus := 0x1_0000_0000

  // ---------- IS_POWER_OF_2 ----------

  /** `!(x & (x - 1))`, where 0 - 1 wraps around. */
  predicate IsPowerOf2(x: nat) { And(x, if x == 0 then Modulus - 1 else x - 1) == 0 }

  lemma {:induction false} AndSelf(x: nat)
    ensures And(x, x) == x
  {
    if x != 0 { AndSelf(x / 2); }
  }

  lemma {:induction false} OddPower(x: nat)
    requires x % 2 == 1
    ensures IsPowerOf2(x) <==> x == 1
    ensures (exists e: nat :: x == Pow2(e)) <==> x == 1
  {
    AndSelf(x / 2);
    assert x == 1 ==> x == Pow2(0);
  }

  lemma {:induction false} EvenPower(x: nat)
    requires x > 0 && x % 2 == 0
    ensures IsPowerOf2(x) <==> IsPowerOf2(x / 2)
    ensures (exists e: nat :: x == Pow2(e)) <==> (exists e: nat :: x / 2 == Pow2(e))
  {
    assert And(x, x - 1) == 2 * And(x / 2, x / 2 - 1);
    if e: nat :| x / 2 == Pow2(e) { HalfPower(x, e + 1); }
    if e: nat :| x == Pow2(e) && e > 0 { HalfPower(x, e); }
    forall e: nat | x == Pow2(e) ensures e > 0 { assert e == 0 ==> Pow2(e) == 1; }
  }

  lemma HalfPower(x: nat, e: nat)
    requires e > 0 && x % 2 == 0
    ensures x == Pow2(e) <==> x / 2 == Pow2(e - 1)
  {
  }

  /** It holds of the powers of two, and of zero. */
  lemma {:induction false} PowerOf2(x: nat)
    requires x > 0
    ensures IsPowerOf2(x) <==> exists e: nat :: x == Pow2(e)
  {
    if x % 2 == 1 {
      OddPower(x);
    } else {
      EvenPower(x);
      PowerOf2(x / 2);
    }
  }

  // ---------- fix_size ----------

  /** Each step doubles the reach of the highest set bit. */
  function S1(x: nat): nat { Or(x, x / 2) }
  function S2(x: nat): nat { Or(S1(x), S1(x) / 4) }
  function S3(x: nat): nat { Or(S2(x), S2(x) / 16) }
  function S4(x: nat): nat { Or(S3(x), S3(x) / 256) }
  function S5(x: nat): nat { Or(S4(x), S4(x) / 65536) }

  function FixSize(size: nat): nat { (S5(size) + 1) % Modulus }

  lemma {:induction false} OrHalf(x: nat, y: nat)
    ensures Or(x, y) / 2 == Or(x / 2, y / 2)
    ensures Or(x, y) % 2 == 1 <==> x % 2 == 1 || y % 2 == 1
  {
  }

  lemma {:induction false} SHalf(x: nat)
    ensures S1(x) / 2 == S1(x / 2) && S2(x) / 2 == S2(x / 2)
    ensures S3(x) / 2 == S3(x / 2) && S4(x) / 2 == S4(x / 2) && S5(x) / 2 == S5(x / 2)
  {
    OrHalf(x, x / 2);
    assert S2(x) / 2 == S2(x / 2) by { OrHalf(S1(x), S1(x) / 4); Swap(S1(x), 4); }
    assert S3(x) / 2 == S3(x / 2) by { OrHalf(S2(x), S2(x) / 16); Swap(S2(x), 16); }
    assert S4(x) / 2 == S4(x / 2) by { OrHalf(S3(x), S3(x) / 256); Swap(S3(x), 256); }
    assert S5(x) / 2 == S5(x / 2) by { OrHalf(S4(x), S4(x) / 65536); Swap(S4(x), 65536); }
  }

  lemma Swap(x: nat, d: nat)
    requires d == 4 || d == 16 || d == 256 || d == 65536
    ensures x / d / 2 == x / 2 / d
  {
  }

  function Drop(x: nat, k: nat): nat { if k == 0 then x else Drop(x / 2, k - 1) }

  lemma {:induction false} DropAdd(x: nat, a: nat, b: nat)
    ensures Drop(x, a + b) == Drop(Drop(x, a), b)
  {
    if a > 0 { DropAdd(x / 2, a - 1, b); }
  }

  lemma Drop4(x: nat)
    ensures Drop(x, 2) == x / 4 && Drop(x, 4) == x / 16
  {
    assert Drop(x, 2) == Drop(x / 2, 1) == x / 2 / 2;
    var y := x / 4;
    assert Drop(x, 4) == Drop(x / 2, 3) == Drop(y, 2);
    assert Drop(y, 2) == Drop(y / 2, 1) == y / 2 / 2;
  }

  lemma {:induction false} DropTwice(x: nat, k: nat, y: nat)
    requires Drop(x, k) == y
    ensures Drop(x, k + k) == Drop(y, k)
  {
    DropAdd(x, k, k);
  }

  lemma {:induction false} Drop8(x: nat)
    ensures Drop(x, 8) == x / 256
  {
    Drop4(x); Drop4(x / 16);
    DropTwice(x, 4, x / 16);
  }

  lemma {:induction false} Drop16(x: nat)
    ensures Drop(x, 16) == x / 65536
  {
    Drop8(x); Drop8(x / 256);
    DropTwice(x, 8, x / 256);
  }

  lemma {:induction false} SDrop(x: nat, k: nat)
    ensures Drop(S1(x), k) == S1(Drop(x, k)) && Drop(S2(x), k) == S2(Drop(x, k))
    ensures Drop(S3(x), k) == S3(Drop(x, k)) && Drop(S4(x), k) == S4(Drop(x, k))
  {
    if k > 0 { SHalf(x); SDrop(x / 2, k - 1); }
  }

  lemma Low4(x: nat)
    ensures x % 16 != 0 <==> x % 4 != 0 || (x / 4) % 4 != 0
  {
  }

  lemma Low8(x: nat)
    ensures x % 256 != 0 <==> x % 16 != 0 || (x / 16) % 16 != 0
  {
  }

  lemma Low16(x: nat)
    ensures x % 65536 != 0 <==> x % 256 != 0 || (x / 256) % 256 != 0
  {
  }

  lemma Low32(x: nat)
    ensures x % Modulus != 0 <==> x % 65536 != 0 || (x / 65536) % 65536 != 0
  {
  }

  lemma {:induction false} S1Low(x: nat)
    ensures S1(x) % 2 == 1 <==> x % 4 != 0
  {
    OrHalf(x, x / 2);
  }

  lemma {:induction false} S2Low(x: nat)
    ensures S2(x) % 2 == 1 <==> x % 16 != 0
  {
    OrHalf(S1(x), S1(x) / 4);
    SDrop(x, 2); Drop4(x); Drop4(S1(x));
    S1Low(x); S1Low(x / 4); Low4(x);
  }

  lemma {:induction false} S3Low(x: nat)
    ensures S3(x) % 2 == 1 <==> x % 256 != 0
  {
    OrHalf(S2(x), S2(x) / 16);
    SDrop(x, 4); Drop4(x); Drop4(S2(x));
    S2Low(x); S2Low(x / 16); Low8(x);
  }

  lemma {:induction false} S4Low(x: nat)
    ensures S4(x) % 2 == 1 <==> x % 65536 != 0
  {
    OrHalf(S3(x), S3(x) / 256);
    SDrop(x, 8); Drop8(x); Drop8(S3(x));
    S3Low(x); S3Low(x / 256); Low16(x);
  }

  /** The lowest bit of the smeared word is set when any of its 32 bits is. */
  lemma {:induction false} S5Low(x: nat)
    ensures S5(x) % 2 == 1 <==> x % Modulus != 0
  {
    OrHalf(S4(x), S4(x) / 65536);
    SDrop(x, 16); Drop16(x); Drop16(S4(x));
    S4Low(x); S4Low(x / 65536); Low32(x);
  }

  lemma {:induction false} SmearStep(x: nat)
    requires 0 < x < Modulus
    ensures S5(x) == 2 * S5(x / 2) + 1 && S5(0) == 0
  {
    assert S5(x) / 2 == S5(x / 2) by { SHalf(x); }
    assert S5(x) % 2 == 1 by { S5Low(x); }
  }

  /** So a 32-bit word smears to ones from its highest bit down. */
  lemma {:induction false} Smeared(x: nat) returns (e: nat)
    requires 0 < x < Modulus
    ensures S5(x) + 1 == Pow2(e) && Pow2(e) <= 2 * x < 2 * Pow2(e)
  {
    SmearStep(x);
    if x == 1 {
      e := 1;
      assert Pow2(1) == 2;
    } else {
      e := Smeared(x / 2);
      SmearBounds(x, Pow2(e));
      e := e + 1;
    }
  }

  lemma SmearBounds(x: nat, p: nat)
    requires p <= 2 * (x / 2) < 2 * p
    ensures 2 * p <= 2 * x < 2 * (2 * p)
  {
  }

  /** The request as buddy_alloc sees it. */
  function RoundUp(size: nat): nat { if IsPowerOf2(size) then size else FixSize(size) }

  /** It is the least power of two that is not below the request. */
  lemma {:induction false} RoundUpLeast(size: nat) returns (e: nat)
    requires 1 <= size <= 0x8000_0000
    ensures RoundUp(size) == Pow2(e) && size <= Pow2(e) < 2 * size && e <= 31
  {
    PowerOf2(size); Two31();
    if IsPowerOf2(size) {
      e :| size == Pow2(e);
    } else {
      e := Smeared(size);
      if Pow2(e) == 2 * size { HalfOfPower(size, e); }
      assert IsPowerOf2(Pow2(31)) by { PowerOf2(Pow2(31)); }
    }
    Pow2Less(e, 32);
  }

  lemma HalfOfPower(size: nat, e: nat)
    requires size > 0 && Pow2(e) == 2 * size
    ensures IsPowerOf2(size)
  {
    assert size == Pow2(e - 1);
    PowerOf2(size);
  }

  lemma Two31()
    ensures Pow2(31) == 0x8000_0000 && Pow2(32) == Modulus
  {
    assert Pow2(8) == 256;
    Pow2Add(8, 8);
    assert Pow2(16) == 65536;
    Pow2Add(15, 16);
    assert Pow2(16) == 2 * Pow2(15);
  }
}
