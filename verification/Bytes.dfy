/** Bytes and little-endian integers. */
module Bytes {
  function Val(b: bv8): (v: nat)
    ensures v < 256
  {
    b as int
  }

  lemma Next(b: bv8)
    requires b != 255
    ensures Val(b + 1) == Val(b) + 1
  {
  }

  /** The byte with value v, `(uint8_t)v`. */
  function ByteOf(v: nat): (b: bv8)
    requires v < 256
    ensures Val(b) == v
  {
    if v == 0 then 0
    else
      var b := ByteOf(v - 1);
      NotLast(b);
      Next(b);
      b + 1
  }

  lemma NotLast(b: bv8)
    requires Val(b) < 255
    ensures b != 255
  {
  }

  function Val32(c: bv32): (v: nat)
    ensures v < 0x1_0000_0000
  {
    c as int
  }

  lemma ValInjective(x: bv8, y: bv8)
    requires Val(x) == Val(y)
    ensures x == y
  {
    assert (x as int) as bv8 == x;
    assert (y as int) as bv8 == y;
  }

  lemma Val32Injective(x: bv32, y: bv32)
    requires Val32(x) == Val32(y)
    ensures x == y
  {
    assert (x as int) as bv32 == x;
    assert (y as int) as bv32 == y;
  }

  function Le(b: seq<bv8>): (v: nat)
    decreases |b|
  {
    if b == [] then 0 else Val(b[0]) + 256 * Le(b[1..])
  }

  function ToLe(v: nat, n: nat): (b: seq<bv8>)
    ensures |b| == n
    decreases n
  {
    if n == 0 then [] else [ByteOf(v % 256)] + ToLe(v / 256, n - 1)
  }

  function Pow256(n: nat): (p: nat)
    ensures p >= 1
  {
    if n == 0 then 1 else 256 * Pow256(n - 1)
  }

  lemma {:induction false} LeToLe(v: nat, n: nat)
    requires v < Pow256(n)
    ensures Le(ToLe(v, n)) == v
    decreases n
  {
    hide Val, ByteOf;
    if n != 0 {
      var b := ToLe(v, n);
      assert b[1..] == ToLe(v / 256, n - 1);
      LeToLe(v / 256, n - 1);
    }
  }

  lemma {:induction false} LeInjective(a: seq<bv8>, b: seq<bv8>)
    requires |a| == |b| && Le(a) == Le(b)
    ensures a == b
    decreases |a|
  {
    hide Val, ByteOf;
    if a != [] {
      assert Val(a[0]) + 256 * Le(a[1..]) == Val(b[0]) + 256 * Le(b[1..]);
      ValInjective(a[0], b[0]);
      LeInjective(a[1..], b[1..]);
      assert a == [a[0]] + a[1..] && b == [b[0]] + b[1..];
    }
  }

  lemma {:induction false} LeBound(b: seq<bv8>)
    ensures Le(b) < Pow256(|b|)
    decreases |b|
  {
    hide Val, ByteOf;
    if b != [] {
      LeBound(b[1..]);
    }
  }

  lemma Widths()
    ensures Pow256(2) == 0x1_0000 && Pow256(4) == 0x1_0000_0000 && Pow256(8) == 0x1_0000_0000_0000_0000
  {
    assert Pow256(4) == 256 * Pow256(3) == 0x1_0000_0000;
    assert Pow256(6) == 256 * Pow256(5);
  }

  /* ---- arrays of little-endian words ---- */

  function Front(b: seq<bv8>, w: nat): (f: seq<bv8>)
    ensures |f| <= w && (w <= |b| ==> f == b[..w])
  {
    if w <= |b| then b[..w] else b
  }

  function Behind(b: seq<bv8>, w: nat): (r: seq<bv8>)
    ensures w <= |b| ==> r == b[w..]
  {
    if w <= |b| then b[w..] else []
  }

  /** The first n words of w bytes each. */
  function Words(b: seq<bv8>, w: nat, n: nat): (s: seq<nat>)
    ensures |s| == n
    decreases n
  {
    if n == 0 then [] else [Le(Front(b, w))] + Words(Behind(b, w), w, n - 1)
  }

  function Image(s: seq<nat>, w: nat): (b: seq<bv8>)
    decreases |s|
  {
    if s == [] then [] else ToLe(s[0], w) + Image(s[1..], w)
  }

  lemma {:induction false} ImageSize(s: seq<nat>, w: nat)
    ensures |Image(s, w)| == w * |s|
    decreases |s|
  {
    hide ToLe;
    if s != [] {
      ImageSize(s[1..], w);
      assert w * |s| == w + w * (|s| - 1);
    }
  }

  lemma {:induction false} WordsBound(b: seq<bv8>, w: nat, n: nat)
    ensures forall i :: 0 <= i < n ==> Words(b, w, n)[i] < Pow256(w)
    decreases n
  {
    hide Le;
    if n != 0 {
      var f := Front(b, w);
      LeBound(f);
      PowMonotone(|f|, w);
      WordsBound(Behind(b, w), w, n - 1);
    }
  }

  lemma {:induction false} PowMonotone(a: nat, b: nat)
    requires a <= b
    ensures Pow256(a) <= Pow256(b)
    decreases b - a
  {
    if a < b {
      PowMonotone(a, b - 1);
    }
  }

  /** Reading back an array of words gives its elements. */
  lemma {:induction false} WordsImage(s: seq<nat>, w: nat, rest: seq<bv8>)
    requires forall i :: 0 <= i < |s| ==> s[i] < Pow256(w)
    ensures Words(Image(s, w) + rest, w, |s|) == s
    decreases |s|
  {
    hide ToLe, Le, Pow256;
    if s != [] {
      var b := Image(s, w) + rest;
      assert b == ToLe(s[0], w) + (Image(s[1..], w) + rest);
      assert b[..w] == ToLe(s[0], w) && b[w..] == Image(s[1..], w) + rest;
      LeToLe(s[0], w);
      WordsImage(s[1..], w, rest);
      assert s == [s[0]] + s[1..];
    }
  }

  lemma {:induction false} ImageAppend(a: seq<nat>, x: nat, w: nat)
    ensures Image(a + [x], w) == Image(a, w) + ToLe(x, w)
    decreases |a|
  {
    hide ToLe;
    if a == [] {
      assert [x][1..] == [];
      assert Image([x], w) == ToLe(x, w) + Image([], w);
    } else {
      assert (a + [x])[1..] == a[1..] + [x];
      ImageAppend(a[1..], x, w);
    }
  }
}
