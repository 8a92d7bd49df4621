/** Fixed-width arithmetic and the power-of-two helpers shared by the static
    planner and the buddy allocator (memory/mem.h). */
module Mem {

  const U64_SIZE: nat := 0x1_0000_0000_0000_0000
  const U64_MAX: nat := U64_SIZE - 1

  type U64 = x: nat | x < U64_SIZE
  type U32 = x: nat | x < 0x1_0000_0000
  type Byte = x: nat | x < 256

  datatype Status = Ok | InvalidArg | NoMem | Mismatch | Protocol | Io

  datatype Option<T> = None | Some(value: T)

  /** C's unsigned 64-bit addition and subtraction. */
  function Add64(x: U64, y: U64): U64 {
    if x + y < U64_SIZE then x + y else x + y - U64_SIZE
  }

  function Sub64(x: U64, y: U64): U64 {
    if x >= y then x - y else x - y + U64_SIZE
  }

  function Pow2(k: nat): (p: nat)
    ensures p >= 1
  {
    if k == 0 then 1 else 2 * Pow2(k - 1)
  }

  /** A power of two: the integers that pass `v != 0 && (v & (v - 1)) == 0`. */
  predicate IsPow2(v: nat) {
    v != 0 && (v == 1 || (v % 2 == 0 && IsPow2(v / 2)))
  }

  /** Clearing the low bits `v & ~(align - 1)` for a power-of-two alignment. */
  function AlignDown(v: U64, align: U64): U64
    requires align != 0
  {
    v - v % align
  }

  /** `(v + align - 1) & ~(align - 1)`; the sum wraps at 64 bits. */
  function AlignUp(v: U64, align: U64): U64
    requires align != 0
  {
    AlignDown(Sub64(Add64(v, align), 1), align)
  }

  lemma AlignDownMultiple(v: U64, align: U64)
    requires align != 0
    ensures AlignDown(v, align) % align == 0
  {
    var q := v / align;
    assert AlignDown(v, align) == q * align;
    MultipleMod(q, align);
  }

  lemma MulMonotone(a: int, b: int, d: nat)
    requires a <= b
    ensures a * d <= b * d
  {
    assert b * d == a * d + (b - a) * d;
  }

  /** A product whose absolute value is below its second factor is zero. */
  lemma SmallProduct(k: int, d: nat)
    ensures k >= 1 ==> k * d >= d
    ensures k <= -1 ==> k * d + d <= 0
  {
    if k >= 1 {
      MulMonotone(1, k, d);
    } else if k <= -1 {
      MulMonotone(k, -1, d);
    }
  }

  lemma DivModUnique(x: nat, d: nat, q: nat, r: nat)
    requires r < d && x == q * d + r
    ensures x / d == q && x % d == r
  {
    var p, s := x / d, x % d;
    assert x == p * d + s;
    assert (p - q) * d == p * d - q * d;
    SmallProduct(p - q, d);
  }

  lemma MultipleMod(q: nat, d: nat)
    requires d != 0
    ensures (q * d) % d == 0
  {
    DivModUnique(q * d, d, q, 0);
  }

  /** Distinct multiples of d are at least d apart. */
  lemma MultiplesApart(x: nat, y: nat, d: nat)
    requires d != 0 && x % d == 0 && y % d == 0
    ensures x < y ==> x + d <= y
  {
    var p, q := x / d, y / d;
    assert x == p * d && y == q * d;
    SmallProduct(q - p, d);
    assert (q - p) * d == y - x;
  }

  /** The multiples of d are closed under addition. */
  lemma ModAdd(x: nat, y: nat, d: nat)
    requires d != 0 && x % d == 0 && y % d == 0
    ensures (x + y) % d == 0
  {
    var p, q := x / d, y / d;
    assert x == p * d && y == q * d;
    assert (p + q) * d == p * d + q * d;
    MultipleMod(p + q, d);
  }

  /** Without wrap-around, AlignUp is the least aligned value that is not below v. */
  lemma AlignUpBounds(v: U64, align: U64)
    requires align != 0 && v + align <= U64_SIZE
    ensures v <= AlignUp(v, align) < v + align
    ensures AlignUp(v, align) % align == 0
  {
    var s := Sub64(Add64(v, align), 1);
    if v + align == U64_SIZE {
      assert Add64(v, align) == 0;
    }
    assert s == v + align - 1;
    AlignDownMultiple(s, align);
  }

  lemma AlignUpLeast(v: U64, align: U64, w: nat)
    requires align != 0 && v + align <= U64_SIZE
    requires v <= w && w % align == 0
    ensures AlignUp(v, align) <= w
  {
    AlignUpBounds(v, align);
    MultiplesApart(w, AlignUp(v, align), align);
  }

  /** When `v + align - 1` wraps, the aligned result is zero. */
  lemma AlignUpWraps(v: U64, align: U64)
    requires align != 0 && v + align > U64_SIZE
    ensures AlignUp(v, align) == 0
  {
    var s := Sub64(Add64(v, align), 1);
    assert s == v + align - 1 - U64_SIZE;
    assert s < align;
    assert s == 0 * align + s;
    DivModUnique(s, align, 0, s);
  }

  /** Smallest o with 2^o >= v, clamped to 63; 0 for v == 0. */
  method CeilLog2(v: U64) returns (o: nat)
    ensures o <= 63
    ensures v <= Pow2(o) || o == 63
    ensures o > 0 ==> Pow2(o - 1) < v
    ensures v == 0 ==> o == 0
  {
    var p: U64 := 1;
    o := 0;
    if v == 0 {
      return;
    }
    Pow2Values();
    while p < v && o < 63
      invariant o <= 63 && p == Pow2(o)
      invariant o > 0 ==> Pow2(o - 1) < v
      decreases 63 - o
    {
      Pow2Monotone(o + 1, 63);
      p := p * 2;
      o := o + 1;
    }
  }

  /** Largest o with 2^o <= v; 0 for v == 0. */
  method FloorLog2(v: U64) returns (o: nat)
    ensures v > 0 ==> Pow2(o) <= v < Pow2(o + 1)
    ensures v == 0 ==> o == 0
  {
    var w := v;
    o := 0;
    while w > 1
      invariant v > 0 ==> w > 0 && w * Pow2(o) <= v < (w + 1) * Pow2(o)
      invariant v == 0 ==> w == 0 && o == 0
      decreases w
    {
      HalveBounds(w, Pow2(o), v);
      w := w / 2;
      o := o + 1;
    }
  }

  lemma HalveBounds(w: nat, p: nat, v: nat)
    requires w * p <= v < (w + 1) * p
    ensures (w / 2) * (2 * p) <= v < (w / 2 + 1) * (2 * p)
  {
    var h := w / 2;
    assert (2 * h) * p <= w * p;
    assert (w + 1) * p <= (2 * h + 2) * p;
    assert (2 * h) * p == h * (2 * p);
    assert (2 * h + 2) * p == (h + 1) * (2 * p);
  }

  lemma {:induction false} Pow2Monotone(a: nat, b: nat)
    requires a <= b
    ensures Pow2(a) <= Pow2(b)
    ensures a < b ==> 2 * Pow2(a) <= Pow2(b)
    decreases b - a
  {
    if a < b {
      Pow2Monotone(a, b - 1);
    }
  }

  lemma {:induction false} Pow2Add(a: nat, b: nat)
    ensures Pow2(a + b) == Pow2(a) * Pow2(b)
  {
    if a != 0 {
      Pow2Add(a - 1, b);
      assert Pow2(a + b) == 2 * (Pow2(a - 1) * Pow2(b));
    }
  }

  lemma Pow2Values()
    ensures Pow2(5) == 32 && Pow2(6) == 64 && Pow2(7) == 128 && Pow2(30) == 0x4000_0000
    ensures Pow2(63) == 0x8000_0000_0000_0000
  {
    assert Pow2(5) == 32;
    assert Pow2(10) == 1024;
    Pow2Add(10, 10);
    Pow2Add(20, 10);
    Pow2Add(30, 30);
    assert Pow2(3) == 8;
    Pow2Add(60, 3);
  }

  /** IsPow2 holds of exactly the values 2^k. */
  lemma {:induction false} IsPow2Exponent(v: nat) returns (k: nat)
    requires IsPow2(v)
    ensures v == Pow2(k)
  {
    if v == 1 {
      k := 0;
    } else {
      var j := IsPow2Exponent(v / 2);
      k := j + 1;
    }
  }

  lemma {:induction false} Pow2IsPow2(k: nat)
    ensures IsPow2(Pow2(k))
  {
    if k != 0 {
      Pow2IsPow2(k - 1);
    }
  }
}
