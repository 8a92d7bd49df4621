/** The CRC-32 of protocol/crc32.c: a lazily built table against the bit-at-a-time
    reflected CRC of section 8 of RFC 1952. */
module Crc32 {
  const POLY: bv32 := 0xEDB88320
  const INIT: bv32 := 0xFFFF_FFFF

  /* ---- the definition: one message bit at a time, least significant bit first ---- */

  function CrcBit(c: bv32, bit: bool): bv32 {
    if (c & 1 == 1) != bit then (c >> 1) ^ POLY else c >> 1
  }

  function CrcBits(c: bv32, bits: seq<bool>): bv32
    decreases |bits|
  {
    if bits == [] then c else CrcBits(CrcBit(c, bits[0]), bits[1..])
  }

  function BitsOf(b: bv8): (bits: seq<bool>)
    ensures |bits| == 8
  {
    [b & 1 != 0, b & 2 != 0, b & 4 != 0, b & 8 != 0, b & 16 != 0, b & 32 != 0, b & 64 != 0, b & 128 != 0]
  }

  function Bits(data: seq<bv8>): (bits: seq<bool>)
    ensures |bits| == 8 * |data|
  {
    if data == [] then [] else BitsOf(data[0]) + Bits(data[1..])
  }

  /** `pai_proto_crc32_fin`. */
  function Finish(c: bv32): bv32 {
    c ^ 0xFFFF_FFFF
  }

  /** The checksum of a byte string. */
  function Crc(data: seq<bv8>): bv32 {
    Finish(CrcBits(INIT, Bits(data)))
  }

  /* ---- the table ---- */

  function Shift1(c: bv32): bv32 {
    if c & 1 == 1 then (c >> 1) ^ POLY else c >> 1
  }

  function Shift(c: bv32, n: nat): bv32 {
    if n == 0 then c else Shift1(Shift(c, n - 1))
  }

  /** Named, so that equations over them are settled without looking at bits. */
  function Xor(x: bv32, y: bv32): bv32 {
    x ^ y
  }

  function Right(x: bv32): bv32 {
    x >> 1
  }

  function Low(x: bv32): bv32 {
    x & 0xFF
  }

  function High(x: bv32): bv32 {
    x >> 8
  }

  function Right4(x: bv32): bv32 {
    x >> 4
  }

  predicate Odd(x: bv32) {
    x & 1 == 1
  }

  predicate AtLeast(x: bv32, t: bv32) {
    x >= t
  }

  function Word(b: bv8): bv32 {
    b as bv32
  }

  /** One byte with the table. */
  function ByteStep(c: bv32, b: bv8): bv32 {
    Xor(Shift(Low(Xor(c, Word(b))), 8), High(c))
  }

  function Update(c: bv32, data: seq<bv8>): bv32
    decreases |data|
  {
    if data == [] then c else Update(ByteStep(c, data[0]), data[1..])
  }

  lemma LowBit(x: bv32, y: bv32)
    ensures Odd(Xor(x, y)) <==> (Odd(x) != Odd(y))
    ensures Right(Xor(x, y)) == Xor(Right(x), Right(y))
  {
  }

  lemma XorCancel(x: bv32, y: bv32, p: bv32)
    ensures Xor(Xor(x, p), Xor(y, p)) == Xor(x, y)
  {
    calc {
      Xor(Xor(x, p), Xor(y, p));
      Xor(x ^ p, y ^ p);
      (x ^ p) ^ (y ^ p);
      x ^ y;
      Xor(x, y);
    }
  }

  lemma XorAssoc(x: bv32, y: bv32, p: bv32)
    ensures Xor(x, Xor(y, p)) == Xor(Xor(x, y), p)
  {
    calc {
      Xor(x, Xor(y, p));
      x ^ (y ^ p);
      (x ^ y) ^ p;
      Xor(Xor(x, y), p);
    }
  }

  lemma XorCommutes(x: bv32, y: bv32)
    ensures Xor(x, y) == Xor(y, x)
  {
  }

  lemma XorSwap(x: bv32, y: bv32, p: bv32)
    ensures Xor(Xor(x, p), y) == Xor(Xor(x, y), p)
  {
    hide Xor;
    XorAssoc(x, p, y);
    XorCommutes(p, y);
    XorAssoc(x, y, p);
  }

  lemma XorZero(x: bv32)
    ensures Xor(x, 0) == x
  {
  }

  lemma XorLaws(x: bv32, y: bv32, p: bv32)
    ensures Xor(Xor(x, p), Xor(y, p)) == Xor(x, y)
    ensures Xor(Xor(x, p), y) == Xor(Xor(x, y), p)
    ensures Xor(x, Xor(y, p)) == Xor(Xor(x, y), p)
  {
    hide Xor;
    XorCancel(x, y, p);
    XorSwap(x, y, p);
    XorAssoc(x, y, p);
  }

  lemma ShiftForms(x: bv32, bit: bool)
    ensures Shift1(x) == if Odd(x) then Xor(Right(x), POLY) else Right(x)
    ensures CrcBit(x, bit) == if Odd(x) != bit then Xor(Right(x), POLY) else Right(x)
  {
  }

  lemma Shift1Linear(x: bv32, y: bv32)
    ensures Shift1(Xor(x, y)) == Xor(Shift1(x), Shift1(y))
  {
    hide Xor, Right, Odd, Shift1, CrcBit;
    LowBit(x, y);
    XorLaws(Right(x), Right(y), POLY);
    ShiftForms(x, false);
    ShiftForms(y, false);
    ShiftForms(Xor(x, y), false);
  }

  lemma {:induction false} ShiftLinear(x: bv32, y: bv32, n: nat)
    ensures Shift(Xor(x, y), n) == Xor(Shift(x, n), Shift(y, n))
  {
    hide Shift1, Xor;
    if n != 0 {
      ShiftLinear(x, y, n - 1);
      Shift1Linear(Shift(x, n - 1), Shift(y, n - 1));
    }
  }

  /** Shifting with the rest of the byte still xored in is one bit step with that rest. */
  lemma BitStep(c: bv32, rest: bv32)
    ensures Shift1(Xor(c, rest)) == Xor(CrcBit(c, Odd(rest)), Right(rest))
  {
    hide Xor, Right, Odd, Shift1, CrcBit;
    LowBit(c, rest);
    XorLaws(Right(c), Right(rest), POLY);
    ShiftForms(c, Odd(rest));
    ShiftForms(Xor(c, rest), false);
  }

  lemma EightShifts(x: bv32)
    ensures Shift(x, 8) == Shift1(Shift1(Shift1(Shift1(Shift1(Shift1(Shift1(Shift1(x))))))))
  {
    hide Shift1;
    assert Shift(x, 1) == Shift1(x);
    assert Shift(x, 2) == Shift1(Shift(x, 1));
    assert Shift(x, 3) == Shift1(Shift(x, 2));
    assert Shift(x, 4) == Shift1(Shift(x, 3));
    assert Shift(x, 5) == Shift1(Shift(x, 4));
    assert Shift(x, 6) == Shift1(Shift(x, 5));
    assert Shift(x, 7) == Shift1(Shift(x, 6));
  }

  /** Eight shifts only move a register whose low byte is clear. */
  lemma ShiftedZero(x: bv32)
    requires x & 0xFF == 0
    ensures Shift(x, 8) == x >> 8
  {
    hide Shift;
    EightShifts(x);
  }

  lemma Halves(x: bv32)
    ensures x == Xor(Low(x), x & 0xFFFF_FF00) && (x & 0xFFFF_FF00) & 0xFF == 0
    ensures (x & 0xFFFF_FF00) >> 8 == High(x)
  {
  }

  /** The table lookup stands for eight shifts of the whole register. */
  lemma LookupIsShift(x: bv32)
    ensures Xor(Shift(Low(x), 8), High(x)) == Shift(x, 8)
  {
    hide Shift, Shift1, Xor, Low, High;
    Halves(x);
    var high := x & 0xFFFF_FF00;
    ShiftLinear(Low(x), high, 8);
    ShiftedZero(high);
  }

  lemma ByteShiftedOut(c: bv32, b: bv8)
    ensures High(Xor(c, Word(b))) == High(c)
  {
  }

  lemma ByteIsShift(c: bv32, b: bv8)
    ensures ByteStep(c, b) == Shift(Xor(c, Word(b)), 8)
  {
    hide Shift, Xor, Low, High, Word;
    ByteShiftedOut(c, b);
    LookupIsShift(Xor(c, Word(b)));
  }

  lemma EightBits(c: bv32, s: seq<bool>)
    requires |s| == 8
    ensures CrcBits(c, s) ==
            CrcBit(CrcBit(CrcBit(CrcBit(CrcBit(CrcBit(CrcBit(CrcBit(c, s[0]), s[1]), s[2]), s[3]), s[4]), s[5]), s[6]), s[7])
  {
    hide CrcBit;
    var c4 := CrcBit(CrcBit(CrcBit(CrcBit(c, s[0]), s[1]), s[2]), s[3]);
    FourBits(c, s);
    FourBits(c4, s[4..]);
    assert s[4..][4..] == [];
  }

  lemma FourBits(c: bv32, s: seq<bool>)
    requires |s| >= 4
    ensures CrcBits(c, s) == CrcBits(CrcBit(CrcBit(CrcBit(CrcBit(c, s[0]), s[1]), s[2]), s[3]), s[4..])
  {
    hide CrcBit;
    assert s[1..][1..] == s[2..] && s[2..][1..] == s[3..] && s[3..][1..] == s[4..];
    var c1 := CrcBit(c, s[0]);
    assert CrcBits(c, s) == CrcBits(c1, s[1..]);
    var c2 := CrcBit(c1, s[1]);
    assert CrcBits(c1, s[1..]) == CrcBits(c2, s[2..]);
    var c3 := CrcBit(c2, s[2]);
    assert CrcBits(c2, s[2..]) == CrcBits(c3, s[3..]);
  }

  /** Bit i of a byte is the low bit of the byte shifted right i times. */
  lemma ByteMasks(b: bv8)
    ensures var x := Word(b); var s := BitsOf(b);
            && s[0] == Odd(x) && s[1] == Odd(Right(x)) && s[2] == Odd(Right(Right(x)))
            && s[3] == Odd(Right(Right(Right(x))))
            && Right(Right(Right(Right(x)))) == Right4(x)
  {
  }

  lemma ByteMasksHigh(b: bv8)
    ensures var x := Right4(Word(b)); var s := BitsOf(b);
            && s[4] == Odd(x) && s[5] == Odd(Right(x)) && s[6] == Odd(Right(Right(x)))
            && s[7] == Odd(Right(Right(Right(x))))
            && Right(Right(Right(Right(x)))) == 0
  {
  }

  /** One byte through the table is eight bit steps. */
  lemma ByteIsBits(c: bv32, b: bv8)
    ensures ByteStep(c, b) == CrcBits(c, BitsOf(b))
  {
    hide Shift, Shift1, CrcBit, ByteStep, CrcBits, BitsOf, Xor, Right, Right4, Odd, Word;
    var x0, s := Word(b), BitsOf(b);
    ByteIsShift(c, b);
    EightShifts(Xor(c, x0));
    EightBits(c, s);
    ByteMasks(b);
    ByteMasksHigh(b);
    BitStep(c, x0);
    var c1, x1 := CrcBit(c, s[0]), Right(x0);
    BitStep(c1, x1);
    var c2, x2 := CrcBit(c1, s[1]), Right(x1);
    BitStep(c2, x2);
    var c3, x3 := CrcBit(c2, s[2]), Right(x2);
    BitStep(c3, x3);
    var c4, x4 := CrcBit(c3, s[3]), Right(x3);
    BitStep(c4, x4);
    var c5, x5 := CrcBit(c4, s[4]), Right(x4);
    BitStep(c5, x5);
    var c6, x6 := CrcBit(c5, s[5]), Right(x5);
    BitStep(c6, x6);
    var c7, x7 := CrcBit(c6, s[6]), Right(x6);
    BitStep(c7, x7);
    XorZero(CrcBit(c7, s[7]));
  }

  lemma {:induction false} CrcBitsAppend(c: bv32, s: seq<bool>, t: seq<bool>)
    ensures CrcBits(c, s + t) == CrcBits(CrcBits(c, s), t)
    decreases |s|
  {
    hide CrcBit;
    if s == [] {
      assert s + t == t;
    } else {
      assert (s + t)[1..] == s[1..] + t;
      CrcBitsAppend(CrcBit(c, s[0]), s[1..], t);
    }
  }

  lemma {:induction false} BitsAppend(a: seq<bv8>, b: seq<bv8>)
    ensures Bits(a + b) == Bits(a) + Bits(b)
    decreases |a|
  {
    hide BitsOf;
    if a == [] {
      assert a + b == b;
    } else {
      assert (a + b)[1..] == a[1..] + b;
      BitsAppend(a[1..], b);
    }
  }

  /** The table-driven update is the bit-at-a-time CRC of the message bits. */
  lemma {:induction false} UpdateIsBitwise(c: bv32, data: seq<bv8>)
    ensures Update(c, data) == CrcBits(c, Bits(data))
    decreases |data|
  {
    hide ByteStep, CrcBits, BitsOf;
    if data == [] {
      assert CrcBits(c, []) == c by { NoBits(c); }
    } else {
      ByteIsBits(c, data[0]);
      UpdateIsBitwise(ByteStep(c, data[0]), data[1..]);
      CrcBitsAppend(c, BitsOf(data[0]), Bits(data[1..]));
    }
  }

  lemma NoBits(c: bv32)
    ensures CrcBits(c, []) == c
  {
  }

  /** Hashing in chunks: header first, then payload. */
  lemma UpdateAppend(c: bv32, a: seq<bv8>, b: seq<bv8>)
    ensures Update(Update(c, a), b) == Update(c, a + b)
  {
    hide Update, CrcBits, Bits;
    UpdateIsBitwise(c, a);
    UpdateIsBitwise(Update(c, a), b);
    UpdateIsBitwise(c, a + b);
    BitsAppend(a, b);
    CrcBitsAppend(c, Bits(a), Bits(b));
  }

  /* ---- error detection ---- */

  lemma CrcBitInjective(c: bv32, d: bv32, bit: bool)
    requires CrcBit(c, bit) == CrcBit(d, bit)
    ensures c == d
  {
  }

  /** Equal continuations keep distinct registers distinct. */
  lemma {:induction false} CrcInjective(c: bv32, d: bv32, s: seq<bool>)
    requires CrcBits(c, s) == CrcBits(d, s)
    ensures c == d
    decreases |s|
  {
    hide CrcBit;
    if s != [] {
      CrcInjective(CrcBit(c, s[0]), CrcBit(d, s[0]), s[1..]);
      CrcBitInjective(c, d, s[0]);
    }
  }

  /** 2^(31 - n), as a register value. */
  function Top(n: nat): bv32 {
    if n == 0 then 0x8000_0000 else Right(Top(n - 1))
  }

  /** A bit step keeps a difference of two registers at least half as large. */
  lemma DifferenceStep(c: bv32, d: bv32, b1: bool, b2: bool, t: bv32)
    requires AtLeast(Xor(c, d), t)
    ensures AtLeast(Xor(CrcBit(c, b1), CrcBit(d, b2)), Right(t))
  {
    hide Xor, Right, CrcBit, Odd, AtLeast;
    ShiftForms(c, b1);
    ShiftForms(d, b2);
    LowBit(c, d);
    XorLaws(Right(c), Right(d), POLY);
    RightStep(Xor(c, d), t);
  }

  lemma RightStep(x: bv32, t: bv32)
    requires AtLeast(x, t)
    ensures AtLeast(Right(x), Right(t)) && AtLeast(Xor(Right(x), POLY), Right(t))
  {
  }

  /** A difference at the top of the register takes 31 more bits, whatever they are, to leave it. */
  lemma {:induction false} DifferenceSurvives(c: bv32, d: bv32, s: seq<bool>, r: seq<bool>, n: nat)
    requires |s| == |r| && n + |s| <= 31 && AtLeast(Xor(c, d), Top(n))
    ensures CrcBits(c, s) != CrcBits(d, r)
    decreases |s|
  {
    hide CrcBit, Xor, Right, AtLeast;
    if s == [] {
      if c == d {
        XorSelf(c);
        TopPositive(n);
      }
    } else {
      DifferenceStep(c, d, s[0], r[0], Top(n));
      DifferenceSurvives(CrcBit(c, s[0]), CrcBit(d, r[0]), s[1..], r[1..], n + 1);
    }
  }

  lemma {:induction false} TopPositive(n: nat)
    requires n <= 31
    ensures !AtLeast(0, Top(n))
  {
    assert Top(8) == 0x80_0000;
    assert Top(16) == 0x8000;
    assert Top(24) == 0x80;
    assert Top(31) == 1;
    TopFalls(n, 31);
  }

  lemma {:induction false} TopFalls(n: nat, k: nat)
    requires n <= k
    ensures Top(n) >= Top(k)
    decreases k
  {
    if n < k {
      TopFalls(n, k - 1);
    }
  }

  lemma XorSelf(c: bv32)
    ensures Xor(c, c) == 0
  {
  }

  lemma FlippedBit(c: bv32)
    ensures Xor(CrcBit(c, true), CrcBit(c, false)) == POLY && Xor(CrcBit(c, false), CrcBit(c, true)) == POLY
  {
  }

  /** Two different windows of at most 32 bits never lead to the same register. */
  lemma {:induction false} BurstDetected(c: bv32, s: seq<bool>, r: seq<bool>)
    requires |s| == |r| <= 32 && s != r
    ensures CrcBits(c, s) != CrcBits(c, r)
    decreases |s|
  {
    hide CrcBit, Xor, Right, AtLeast;
    if s[0] == r[0] {
      BurstDetected(CrcBit(c, s[0]), s[1..], r[1..]);
    } else {
      FlippedBit(c);
      PolyHigh();
      DifferenceSurvives(CrcBit(c, s[0]), CrcBit(c, r[0]), s[1..], r[1..], 0);
    }
  }

  lemma PolyHigh()
    ensures AtLeast(POLY, Top(0))
  {
  }

  lemma {:induction false} BitsInjective(a: seq<bv8>, b: seq<bv8>)
    requires |a| == |b| && Bits(a) == Bits(b)
    ensures a == b
    decreases |a|
  {
    hide BitsOf;
    if a != [] {
      assert BitsOf(a[0]) == Bits(a)[..8] == Bits(b)[..8] == BitsOf(b[0]);
      assert Bits(a[1..]) == Bits(a)[8..] == Bits(b)[8..] == Bits(b[1..]);
      BitsOfInjective(a[0], b[0]);
      BitsInjective(a[1..], b[1..]);
      assert a == [a[0]] + a[1..] && b == [b[0]] + b[1..];
    }
  }

  lemma BitsOfInjective(x: bv8, y: bv8)
    requires BitsOf(x) == BitsOf(y)
    ensures x == y
  {
    var s, r := BitsOf(x), BitsOf(y);
    assert s[0] == r[0] && s[1] == r[1] && s[2] == r[2] && s[3] == r[3];
    assert s[4] == r[4] && s[5] == r[5] && s[6] == r[6] && s[7] == r[7];
  }

  /** Corruption of at most four consecutive bytes changes the checksum. */
  lemma CorruptionDetected(before: seq<bv8>, was: seq<bv8>, now: seq<bv8>, behind: seq<bv8>)
    requires |was| == |now| <= 4 && was != now
    ensures Crc(before + was + behind) != Crc(before + now + behind)
  {
    hide CrcBits, Bits, Finish;
    if Bits(was) == Bits(now) {
      BitsInjective(was, now);
    }
    var c := CrcBits(INIT, Bits(before));
    BurstDetected(c, Bits(was), Bits(now));
    ThreeParts(before, was, behind);
    ThreeParts(before, now, behind);
    if Crc(before + was + behind) == Crc(before + now + behind) {
      FinalInjective(CrcBits(INIT, Bits(before + was + behind)), CrcBits(INIT, Bits(before + now + behind)));
      CrcInjective(CrcBits(c, Bits(was)), CrcBits(c, Bits(now)), Bits(behind));
    }
  }

  lemma FinalInjective(x: bv32, y: bv32)
    requires Finish(x) == Finish(y)
    ensures x == y
  {
  }

  lemma ThreeParts(a: seq<bv8>, b: seq<bv8>, c: seq<bv8>)
    ensures CrcBits(INIT, Bits(a + b + c)) == CrcBits(CrcBits(CrcBits(INIT, Bits(a)), Bits(b)), Bits(c))
  {
    hide CrcBits, Bits;
    BitsAppend(a + b, c);
    BitsAppend(a, b);
    CrcBitsAppend(INIT, Bits(a) + Bits(b), Bits(c));
    CrcBitsAppend(INIT, Bits(a), Bits(b));
  }

  /* ---- the code ---- */

  ghost predicate IsTable(t: seq<bv32>) {
    |t| == 256 && forall i: bv32 :: i < 256 ==> t[i as int] == Shift(i, 8)
  }

  /** The lazily built table, shared by all users. */
  class Table {
    const entries: array<bv32>
    var ready: bool

    ghost predicate Valid()
      reads this, entries
    {
      entries.Length == 256 && (ready ==> IsTable(entries[..]))
    }

    constructor ()
      ensures Valid() && !ready && fresh(entries)
    {
      entries := new bv32[256](_ => 0);
      ready := false;
    }

    /** `crc_table_build`. */
    method Build()
      requires Valid()
      modifies this, entries
      ensures Valid() && ready
    {
      hide Shift1;
      var i := 0;
      while i < 256
        invariant 0 <= i <= 256
        invariant forall j :: 0 <= j < i ==> entries[j] == Shift(j as bv32, 8)
        modifies entries
      {
        var crc := i as bv32;
        var b := 0;
        while b < 8
          invariant 0 <= b <= 8 && crc == Shift(i as bv32, b)
          modifies {}
        {
          ShiftOnce(crc);
          crc := if crc & 1 != 0 then (crc >> 1) ^ POLY else crc >> 1;
          b := b + 1;
        }
        entries[i] := crc;
        i := i + 1;
      }
      TableFilled(entries[..]);
      ready := true;
    }

    /** `pai_proto_crc32_upd`. */
    method Upd(running: bv32, data: seq<bv8>) returns (r: bv32)
      requires Valid()
      modifies this, entries
      ensures Valid()
      ensures r == CrcBits(running, Bits(data))
    {
      hide Shift, IsTable, CrcBits, Bits, ByteStep, Update, Xor, Low, High, Word;
      if !ready {
        Build();
      }
      r := running;
      ghost var table := entries[..];
      var i := 0;
      assert data[..0] == [];
      UpdateNone(running);
      while i < |data|
        invariant 0 <= i <= |data|
        invariant r == Update(running, data[..i])
        modifies {}
      {
        Lookup(table, r, data[i]);
        UpdateOne(running, data[..i], data[i]);
        assert data[..i + 1] == data[..i] + [data[i]];
        r := Xor(entries[Low(Xor(r, Word(data[i]))) as int], High(r));
        i := i + 1;
      }
      assert data[..i] == data;
      UpdateIsBitwise(running, data);
    }

    /** `pai_proto_crc32`: one shot. */
    method OneShot(data: seq<bv8>) returns (r: bv32)
      requires Valid()
      modifies this, entries
      ensures Valid() && r == Crc(data)
    {
      r := Upd(INIT, data);
      r := Finish(r);
    }
  }

  lemma ShiftOnce(x: bv32)
    ensures Shift1(x) == if x & 1 != 0 then (x >> 1) ^ POLY else x >> 1
  {
  }

  lemma TableFilled(t: seq<bv32>)
    requires |t| == 256 && forall j :: 0 <= j < 256 ==> t[j] == Shift(j as bv32, 8)
    ensures IsTable(t)
  {
    hide Shift;
    forall i: bv32 | i < 256
      ensures t[i as int] == Shift(i, 8)
    {
      assert (i as int) as bv32 == i;
    }
  }

  lemma Lookup(t: seq<bv32>, c: bv32, b: bv8)
    requires IsTable(t)
    ensures var i := Low(Xor(c, Word(b)));
            && 0 <= i as int < |t|
            && Xor(t[i as int], High(c)) == ByteStep(c, b)
  {
    hide Shift, Xor, High, Word, Low;
    LowByte(Xor(c, Word(b)));
  }

  lemma LowByte(x: bv32)
    ensures Low(x) < 256 && 0 <= Low(x) as int < 256
  {
  }

  lemma UpdateNone(c: bv32)
    ensures Update(c, []) == c
  {
  }

  lemma UpdateOne(c: bv32, a: seq<bv8>, b: bv8)
    ensures Update(c, a + [b]) == ByteStep(Update(c, a), b)
  {
    hide ByteStep;
    UpdateAppend(c, a, [b]);
    assert [b][1..] == [];
  }
}
