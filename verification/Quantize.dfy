/** Grouped symmetric quantization of models/quantize.c, over exact reals: the stored
    integers, the packing of two per byte, and the error after dequantizing. */
module Quantize {
  import opened Mem

  datatype Scheme = Scheme(bits: nat, signed: bool, group: nat)
  datatype QStatus = Done | Invalid | Unsupported

  /** `quant_group_size`: the group size for n elements, or why there is none. */
  function GroupSize(s: Scheme, n: nat): (QStatus, nat) {
    if s.bits != 8 && s.bits != 4 then (Unsupported, 0)
    else if !s.signed then (Unsupported, 0)
    else
      var gs := if s.group == 0 then n else s.group;
      if gs == 0 then (Invalid, 0) else (Done, gs)
  }

  function QMax(s: Scheme): int {
    if s.bits == 8 then 127 else 7
  }

  /** `pai_quant_value_bytes`. */
  function ValueBytes(s: Scheme, n: nat): nat {
    if s.bits == 4 then (n + 1) / 2 else n
  }

  /** `pai_quant_num_groups`. */
  function NumGroups(s: Scheme, n: nat): nat {
    var (st, gs) := GroupSize(s, n);
    if n == 0 || st != Done then 0 else if n % gs != 0 then n / gs + 1 else n / gs
  }

  function Abs(x: real): real {
    if x < 0.0 then -x else x
  }

  /** Round to nearest, ties to even: `lrintf` in the default rounding mode. */
  function Round(x: real): int {
    var f := x.Floor;
    var d := x - f as real;
    if d < 0.5 then f else if d > 0.5 then f + 1 else if f % 2 == 0 then f else f + 1
  }

  lemma RoundNear(x: real)
    ensures Abs(Round(x) as real - x) <= 0.5
  {
  }

  /** Largest absolute value of x[a..b]. */
  function MaxAbs(x: seq<real>, a: nat, b: nat): (m: real)
    requires a <= b <= |x|
    ensures m >= 0.0 && forall i :: a <= i < b ==> Abs(x[i]) <= m
    decreases b - a
  {
    if a == b then 0.0
    else
      var m := MaxAbs(x, a, b - 1);
      if Abs(x[b - 1]) > m then Abs(x[b - 1]) else m
  }

  function ScaleOf(x: seq<real>, a: nat, b: nat, qmax: int): (s: real)
    requires a <= b <= |x| && qmax > 0
    ensures s >= 0.0
  {
    if MaxAbs(x, a, b) > 0.0 then MaxAbs(x, a, b) / qmax as real else 0.0
  }

  /** Rounded and clamped to the stored range. */
  function QuantOf(v: real, scale: real, qmax: int): (q: int)
    requires qmax > 0
    ensures -qmax <= q <= qmax
  {
    if scale > 0.0 then
      var q := Round(v / scale);
      if q > qmax then qmax else if q < -qmax then -qmax else q
    else 0
  }

  lemma DivBound(v: real, scale: real, m: real)
    requires scale > 0.0 && Abs(v) <= m * scale
    ensures Abs(v / scale) <= m
  {
    var r := v / scale;
    assert r * scale == v;
    if r > m {
      assert (r - m) * scale > 0.0;
    } else if -r > m {
      assert (-r - m) * scale > 0.0;
    }
  }

  lemma RoundInRange(x: real, qmax: int)
    requires qmax > 0 && Abs(x) <= qmax as real
    ensures -qmax <= Round(x) <= qmax
  {
  }

  /** Inside its group a value is never clamped. */
  lemma NeverClamped(x: seq<real>, a: nat, b: nat, i: nat, qmax: int)
    requires a <= i < b <= |x| && qmax > 0 && ScaleOf(x, a, b, qmax) > 0.0
    ensures QuantOf(x[i], ScaleOf(x, a, b, qmax), qmax) == Round(x[i] / ScaleOf(x, a, b, qmax))
  {
    var scale := ScaleOf(x, a, b, qmax);
    assert qmax as real * scale == MaxAbs(x, a, b);
    DivBound(x[i], scale, qmax as real);
    RoundInRange(x[i] / scale, qmax);
  }

  lemma NonNegative(a: real, b: real)
    requires a >= 0.0 && b >= 0.0
    ensures a * b >= 0.0
  {
  }

  lemma ScaledError(d: real, scale: real)
    requires scale > 0.0 && Abs(d) <= 0.5
    ensures Abs(scale * d) <= scale * 0.5
  {
    NonNegative(scale, 0.5 - d);
    NonNegative(scale, 0.5 + d);
    assert scale * (0.5 - d) == scale * 0.5 - scale * d;
    assert scale * (0.5 + d) == scale * 0.5 + scale * d;
  }

  lemma Rescaled(v: real, scale: real)
    requires scale > 0.0
    ensures scale * (v / scale) == v
  {
  }

  lemma Distribute(scale: real, a: real, b: real)
    ensures scale * (a - b) == scale * a - scale * b
  {
  }

  lemma RoundedError(v: real, scale: real)
    requires scale > 0.0
    ensures Abs(scale * Round(v / scale) as real - v) <= scale * 0.5
  {
    hide Round;
    var r := v / scale;
    RoundNear(r);
    ScaledError(Round(r) as real - r, scale);
    Rescaled(v, scale);
    Distribute(scale, Round(r) as real, r);
  }

  /** Half a step at most is lost. */
  lemma ErrorBound(x: seq<real>, a: nat, b: nat, i: nat, qmax: int)
    requires a <= i < b <= |x| && qmax > 0
    ensures var scale := ScaleOf(x, a, b, qmax);
            Abs(scale * QuantOf(x[i], scale, qmax) as real - x[i]) <= scale * 0.5
  {
    hide ScaleOf, MaxAbs, Round, QuantOf;
    var scale := ScaleOf(x, a, b, qmax);
    if scale > 0.0 {
      NeverClamped(x, a, b, i, qmax);
      RoundedError(x[i], scale);
    } else {
      assert Abs(x[i]) <= MaxAbs(x, a, b);
      NoScale(x, a, b, qmax);
      NoQuant(x[i], scale, qmax);
    }
  }

  lemma NoQuant(v: real, scale: real, qmax: int)
    requires scale <= 0.0 && qmax > 0
    ensures QuantOf(v, scale, qmax) == 0
  {
  }

  lemma NoScale(x: seq<real>, a: nat, b: nat, qmax: int)
    requires a <= b <= |x| && qmax > 0 && ScaleOf(x, a, b, qmax) == 0.0
    ensures MaxAbs(x, a, b) == 0.0
  {
    if MaxAbs(x, a, b) > 0.0 {
      assert MaxAbs(x, a, b) / qmax as real * qmax as real == MaxAbs(x, a, b);
    }
  }

  /* ---- packing ---- */

  /** `(int8_t)q` and `q & 0x0F` as unsigned values. */
  function ToByte(q: int): Byte
    requires -128 <= q < 128
  {
    if q < 0 then q + 256 else q
  }

  function ToNibble(q: int): (v: nat)
    requires -8 <= q < 8
    ensures v < 16
  {
    if q < 0 then q + 16 else q
  }

  /** Element i of a packed buffer, sign-extended. */
  function Stored(bits: nat, buf: seq<Byte>, i: nat): int
    requires if bits == 4 then i / 2 < |buf| else i < |buf|
  {
    if bits == 4 then
      var nib: int := if i % 2 == 0 then buf[i / 2] % 16 else buf[i / 2] / 16;
      if nib >= 8 then nib - 16 else nib
    else if buf[i] >= 128 then (buf[i] as int) - 256 else buf[i]
  }

  /** Writing one element in place. */
  function StoreAt(bits: nat, buf: seq<Byte>, i: nat, q: int): (r: seq<Byte>)
    requires if bits == 4 then i / 2 < |buf| else i < |buf|
    requires if bits == 4 then -8 <= q < 8 else -128 <= q < 128
    ensures |r| == |buf|
  {
    if bits == 4 then
      var b := buf[i / 2];
      buf[i / 2 := if i % 2 == 0 then b / 16 * 16 + ToNibble(q) else b % 16 + ToNibble(q) * 16]
    else buf[i := ToByte(q)]
  }

  /** Packing stores exactly the value, also for an odd last element, and no other one changes. */
  lemma StoreReads(bits: nat, buf: seq<Byte>, i: nat, q: int, j: nat)
    requires if bits == 4 then i / 2 < |buf| && j / 2 < |buf| else i < |buf| && j < |buf|
    requires if bits == 4 then -8 <= q < 8 else -128 <= q < 128
    ensures Stored(bits, StoreAt(bits, buf, i, q), j) == if j == i then q else Stored(bits, buf, j)
  {
    if bits == 4 {
      Halves(buf[i / 2]);
      Nibbles(buf[i / 2] / 16, ToNibble(q));
      Nibbles(ToNibble(q), buf[i / 2] % 16);
      SamePair(i, j);
    }
  }

  lemma Halves(b: Byte)
    ensures b / 16 < 16
  {
  }

  lemma Nibbles(high: nat, low: nat)
    requires high < 16 && low < 16
    ensures (high * 16 + low) / 16 == high && (high * 16 + low) % 16 == low
  {
  }

  lemma SamePair(i: nat, j: nat)
    ensures i / 2 == j / 2 && i % 2 == j % 2 ==> i == j
  {
  }

  /* ---- the code ---- */

  /** End of group g. */
  function GroupEnd(n: nat, gs: nat, g: nat): nat {
    if (g + 1) * gs < n then (g + 1) * gs else n
  }

  /** The group of element i. */
  function Group(gs: nat, i: nat): nat
    requires gs > 0
  {
    i / gs
  }

  /** Element i is stored with the scale of its own group. */
  predicate Good(x: seq<real>, s: Scheme, gs: nat, buf: seq<Byte>, scales: seq<real>, i: nat)
    requires gs > 0 && i < |x| && |buf| >= ValueBytes(s, |x|) && (s.bits == 4 || s.bits == 8)
  {
    var g := Group(gs, i);
    GroupOf(|x|, gs, i);
    && g < |scales|
    && scales[g] == ScaleOf(x, g * gs, GroupEnd(|x|, gs, g), QMax(s))
    && Stored(s.bits, buf, i) == QuantOf(x[i], scales[g], QMax(s))
  }

  lemma GroupOf(n: nat, gs: nat, i: nat)
    requires gs > 0 && i < n
    ensures Group(gs, i) * gs <= i < GroupEnd(n, gs, Group(gs, i))
  {
    var g := i / gs;
    assert i == g * gs + i % gs;
    assert (g + 1) * gs == g * gs + gs;
  }

  lemma InGroup(n: nat, gs: nat, g: nat, i: nat)
    requires gs > 0 && g * gs <= i < GroupEnd(n, gs, g)
    ensures Group(gs, i) == g
  {
    assert (g + 1) * gs == g * gs + gs;
    DivModUnique(i, gs, g, i - g * gs);
  }

  lemma GroupsBound(s: Scheme, n: nat, gs: nat, g: nat)
    requires GroupSize(s, n) == (Done, gs) && g * gs < n
    ensures g < NumGroups(s, n)
  {
    var k, r := n / gs, n % gs;
    assert n == k * gs + r;
    SmallProduct(k - g, gs);
    assert (k - g) * gs == k * gs - g * gs;
  }

  lemma GroupsAll(s: Scheme, n: nat, gs: nat, g: nat)
    requires GroupSize(s, n) == (Done, gs) && g * gs >= n && (g == 0 || (g - 1) * gs < n)
    ensures g == NumGroups(s, n)
  {
    var k, r := n / gs, n % gs;
    assert n == k * gs + r;
    SmallProduct(k - g, gs);
    assert (k - g) * gs == k * gs - g * gs;
    SmallProduct(k - (g - 1), gs);
    assert (k - (g - 1)) * gs == k * gs - (g - 1) * gs;
    assert g == 0 ==> g * gs == 0;
  }

  /** Storing element i keeps every other one. */
  lemma StoreKeeps(x: seq<real>, s: Scheme, gs: nat, buf: seq<Byte>, scales: seq<real>, i: nat, q: int, j: nat)
    requires gs > 0 && i < |x| && j < |x| && j != i && |buf| >= ValueBytes(s, |x|) && (s.bits == 4 || s.bits == 8)
    requires if s.bits == 4 then -8 <= q < 8 else -128 <= q < 128
    requires Good(x, s, gs, buf, scales, j)
    ensures Good(x, s, gs, StoreAt(s.bits, buf, i, q), scales, j)
  {
    hide ScaleOf, StoreAt, Stored, QuantOf;
    StoreReads(s.bits, buf, i, q, j);
  }

  lemma NewGood(x: seq<real>, s: Scheme, gs: nat, buf: seq<Byte>, scales: seq<real>, g: nat, i: nat)
    requires gs > 0 && g * gs <= i < GroupEnd(|x|, gs, g) && g < |scales| && i < |x|
    requires |buf| >= ValueBytes(s, |x|) && (s.bits == 4 || s.bits == 8)
    requires scales[g] == ScaleOf(x, g * gs, GroupEnd(|x|, gs, g), QMax(s))
    ensures var q := QuantOf(x[i], scales[g], QMax(s));
            Good(x, s, gs, StoreAt(s.bits, buf, i, q), scales, i)
  {
    hide ScaleOf, StoreAt, Stored, QuantOf;
    InGroup(|x|, gs, g, i);
    StoreReads(s.bits, buf, i, QuantOf(x[i], scales[g], QMax(s)), i);
  }

  /** The maximum loop of one group. */
  method GroupMax(src: seq<real>, t: nat, t1: nat) returns (m: real)
    requires t <= t1 <= |src|
    ensures m == MaxAbs(src, t, t1)
  {
    m := 0.0;
    var i := t;
    while i < t1
      invariant t <= i <= t1 && m == MaxAbs(src, t, i)
    {
      var av := Abs(src[i]);
      if av > m {
        m := av;
      }
      i := i + 1;
    }
  }

  /** Writes element i of the packed buffer in place. */
  method Put(s: Scheme, out: array<Byte>, i: nat, q: int)
    requires s.bits == 4 || s.bits == 8
    requires if s.bits == 4 then i / 2 < out.Length && -8 <= q < 8 else i < out.Length && -128 <= q < 128
    modifies out
    ensures out[..] == StoreAt(s.bits, old(out[..]), i, q)
  {
    if s.bits == 4 {
      var b := out[i / 2];
      Halves(b);
      Nibbles(b / 16, ToNibble(q));
      if i % 2 == 0 {
        out[i / 2] := b / 16 * 16 + ToNibble(q);
      } else {
        out[i / 2] := b % 16 + ToNibble(q) * 16;
      }
    } else {
      out[i] := ToByte(q);
    }
  }

  /** The quantizing loop of group g. */
  method QuantizeGroup(src: seq<real>, s: Scheme, gs: nat, g: nat, out: array<Byte>, scales: array<real>)
    requires gs > 0 && (s.bits == 4 || s.bits == 8) && g * gs < |src| && g < scales.Length
    requires out.Length >= ValueBytes(s, |src|)
    requires scales[g] == ScaleOf(src, g * gs, GroupEnd(|src|, gs, g), QMax(s))
    requires forall i :: 0 <= i < g * gs ==> Good(src, s, gs, out[..], scales[..], i)
    modifies out
    ensures forall i :: 0 <= i < GroupEnd(|src|, gs, g) ==> Good(src, s, gs, out[..], scales[..], i)
    ensures out[ValueBytes(s, |src|)..] == old(out[ValueBytes(s, |src|)..])
    ensures s.bits == 4 && |src| % 2 == 1 ==> Stored(4, out[..], |src|) == old(Stored(4, out[..], |src|))
  {
    hide Good, ScaleOf, StoreAt, Stored;
    ghost var n, k := |src|, ValueBytes(s, |src|);
    assert (g + 1) * gs == g * gs + gs;
    var qmax := QMax(s);
    var scale := scales[g];
    var t1 := if g * gs + gs < |src| then g * gs + gs else |src|;
    var i := g * gs;
    while i < t1
      invariant g * gs <= i <= t1
      invariant forall j :: 0 <= j < i ==> Good(src, s, gs, out[..], scales[..], j)
      invariant out[k..] == old(out[k..])
      invariant s.bits == 4 && n % 2 == 1 ==> Stored(4, out[..], n) == old(Stored(4, out[..], n))
    {
      ghost var b := out[..];
      var q := QuantOf(src[i], scale, qmax);
      NewGood(src, s, gs, b, scales[..], g, i);
      Put(s, out, i, q);
      forall j | 0 <= j < i
        ensures Good(src, s, gs, out[..], scales[..], j)
      {
        StoreKeeps(src, s, gs, b, scales[..], i, q, j);
      }
      StoreFrame(s, b, i, q, n);
      i := i + 1;
    }
  }

  /** Storing element i stays within the value bytes and leaves the padding nibble alone. */
  lemma StoreFrame(s: Scheme, b: seq<Byte>, i: nat, q: int, n: nat)
    requires (s.bits == 4 || s.bits == 8) && i < n && |b| >= ValueBytes(s, n)
    requires if s.bits == 4 then -8 <= q < 8 else -128 <= q < 128
    ensures StoreAt(s.bits, b, i, q)[ValueBytes(s, n)..] == b[ValueBytes(s, n)..]
    ensures s.bits == 4 && n % 2 == 1 ==> Stored(4, StoreAt(s.bits, b, i, q), n) == Stored(4, b, n)
  {
    if s.bits == 4 && n % 2 == 1 {
      StoreReads(4, b, i, q, n);
    }
  }

  /** `pai_quantize_f32`. */
  method QuantizeAll(src: seq<real>, s: Scheme, out: array<Byte>, scales: array<real>) returns (st: QStatus, groups: nat)
    requires out.Length >= ValueBytes(s, |src|) && scales.Length >= NumGroups(s, |src|)
    modifies out, scales
    ensures st == GroupSize(s, |src|).0
    ensures st == Done ==> groups == NumGroups(s, |src|)
    ensures st == Done ==> GroupSize(s, |src|).1 > 0 && (s.bits == 4 || s.bits == 8)
                           && forall i :: 0 <= i < |src| ==> Good(src, s, GroupSize(s, |src|).1, out[..], scales[..], i)
    ensures st == Done && s.bits == 4 && |src| % 2 == 1 ==> Stored(4, out[..], |src|) == 0
    ensures out[ValueBytes(s, |src|)..] == old(out[ValueBytes(s, |src|)..])
  {
    hide Good, ScaleOf, NumGroups;
    groups := 0;
    var size := GroupSize(s, |src|);
    st := size.0;
    if st != Done {
      return;
    }
    var gs := size.1;
    forall i | 0 <= i < ValueBytes(s, |src|) {
      out[i] := 0;
    }
    var g, t := 0, 0;
    while t < |src|
      invariant t == g * gs && (g == 0 || (g - 1) * gs < |src|)
      invariant forall i :: 0 <= i < t && i < |src| ==> Good(src, s, gs, out[..], scales[..], i)
      invariant s.bits == 4 && |src| % 2 == 1 ==> Stored(4, out[..], |src|) == 0
      invariant out[ValueBytes(s, |src|)..] == old(out[ValueBytes(s, |src|)..])
      decreases |src| + gs - t
    {
      GroupsBound(s, |src|, gs, g);
      assert (g + 1) * gs == t + gs;
      var t1 := if t + gs < |src| then t + gs else |src|;
      var m := GroupMax(src, t, t1);
      ghost var before := scales[..];
      scales[g] := ScaleFrom(m, QMax(s));
      ScaleFromIs(src, t, t1, m, QMax(s));
      forall i | 0 <= i < t && i < |src|
        ensures Good(src, s, gs, out[..], scales[..], i)
      {
        OtherScale(src, s, gs, out[..], before, scales[..], g, i);
      }
      QuantizeGroup(src, s, gs, g, out, scales);
      g, t := g + 1, t + gs;
    }
    GroupsAll(s, |src|, gs, g);
    groups := g;
  }

  function ScaleFrom(m: real, qmax: int): real
    requires qmax > 0
  {
    if m > 0.0 then m / qmax as real else 0.0
  }

  lemma ScaleFromIs(x: seq<real>, a: nat, b: nat, m: real, qmax: int)
    requires a <= b <= |x| && qmax > 0 && m == MaxAbs(x, a, b)
    ensures ScaleFrom(m, qmax) == ScaleOf(x, a, b, qmax)
  {
  }

  /** The scale of a later group does not concern earlier elements. */
  lemma OtherScale(x: seq<real>, s: Scheme, gs: nat, buf: seq<Byte>, scales: seq<real>, scales2: seq<real>, g: nat, i: nat)
    requires gs > 0 && i < |x| && |buf| >= ValueBytes(s, |x|) && (s.bits == 4 || s.bits == 8) && i < g * gs
    requires |scales| == |scales2| && forall j :: 0 <= j < |scales| && j != g ==> scales2[j] == scales[j]
    requires Good(x, s, gs, buf, scales, i)
    ensures Good(x, s, gs, buf, scales2, i)
  {
    hide ScaleOf, Stored, QuantOf, Group, ValueBytes;
    GroupOf(|x|, gs, i);
    GroupBelow(gs, g, i);
  }

  lemma GroupBelow(gs: nat, g: nat, i: nat)
    requires gs > 0 && i < g * gs
    ensures Group(gs, i) < g
  {
    var k := i / gs;
    assert i == k * gs + i % gs;
    SmallProduct(k - g, gs);
    assert (k - g) * gs == k * gs - g * gs;
  }

  /** Element i as it comes back. */
  predicate Restored(q: seq<Byte>, scales: seq<real>, s: Scheme, gs: nat, out: seq<real>, i: nat)
    requires gs > 0 && i < |out| && (s.bits == 4 || s.bits == 8)
  {
    && (if s.bits == 4 then i / 2 < |q| else i < |q|) && Group(gs, i) < |scales|
    && out[i] == scales[Group(gs, i)] * Stored(s.bits, q, i) as real
  }

  lemma Room(s: Scheme, n: nat, i: nat)
    requires (s.bits == 4 || s.bits == 8) && i < n
    ensures if s.bits == 4 then i / 2 < ValueBytes(s, n) else i < ValueBytes(s, n)
  {
  }

  /** `pai_dequantize_f32`. */
  method DequantizeAll(q: seq<Byte>, scales: seq<real>, n: nat, s: Scheme, out: array<real>) returns (st: QStatus)
    requires |q| >= ValueBytes(s, n) && |scales| >= NumGroups(s, n) && out.Length >= n
    modifies out
    ensures st == GroupSize(s, n).0
    ensures st == Done ==> GroupSize(s, n).1 > 0 && (s.bits == 4 || s.bits == 8)
    ensures st == Done ==> forall i :: 0 <= i < n ==> Restored(q, scales, s, GroupSize(s, n).1, out[..], i)
  {
    hide NumGroups, Restored, ValueBytes;
    var size := GroupSize(s, n);
    st := size.0;
    if st != Done {
      return;
    }
    var gs := size.1;
    var g, t := 0, 0;
    while t < n
      invariant t == g * gs
      invariant forall i :: 0 <= i < t && i < n ==> Restored(q, scales, s, gs, out[..], i)
      decreases n + gs - t
    {
      GroupsBound(s, n, gs, g);
      RestoreGroup(q, scales, n, s, gs, g, out);
      assert (g + 1) * gs == t + gs;
      g, t := g + 1, t + gs;
    }
  }

  /** The dequantizing loop of group g. */
  method RestoreGroup(q: seq<Byte>, scales: seq<real>, n: nat, s: Scheme, gs: nat, g: nat, out: array<real>)
    requires gs > 0 && (s.bits == 4 || s.bits == 8) && |q| >= ValueBytes(s, n) && g < |scales|
    requires out.Length >= n && g * gs < n
    requires forall i :: 0 <= i < g * gs ==> Restored(q, scales, s, gs, out[..], i)
    modifies out
    ensures forall i :: 0 <= i < GroupEnd(n, gs, g) ==> Restored(q, scales, s, gs, out[..], i)
  {
    hide Restored, Stored, Group, ValueBytes;
    assert (g + 1) * gs == g * gs + gs;
    var t1 := if g * gs + gs < n then g * gs + gs else n;
    var scale := scales[g];
    var i := g * gs;
    while i < t1
      invariant g * gs <= i <= t1
      invariant forall j :: 0 <= j < i ==> Restored(q, scales, s, gs, out[..], j)
    {
      InGroup(n, gs, g, i);
      Room(s, n, i);
      ghost var o := out[..];
      out[i] := scale * Stored(s.bits, q, i) as real;
      RestoredNow(q, scales, s, gs, g, out[..], i);
      forall j | 0 <= j < i
        ensures Restored(q, scales, s, gs, out[..], j)
      {
        RestoredFrame(q, scales, s, gs, o, out[..], j);
      }
      i := i + 1;
    }
  }

  lemma RestoredNow(q: seq<Byte>, scales: seq<real>, s: Scheme, gs: nat, g: nat, out: seq<real>, i: nat)
    requires gs > 0 && i < |out| && (s.bits == 4 || s.bits == 8) && Group(gs, i) == g < |scales|
    requires if s.bits == 4 then i / 2 < |q| else i < |q|
    requires out[i] == scales[g] * Stored(s.bits, q, i) as real
    ensures Restored(q, scales, s, gs, out, i)
  {
  }

  lemma RestoredFrame(q: seq<Byte>, scales: seq<real>, s: Scheme, gs: nat, o: seq<real>, out: seq<real>, i: nat)
    requires gs > 0 && i < |out| == |o| && (s.bits == 4 || s.bits == 8) && o[i] == out[i]
    requires Restored(q, scales, s, gs, o, i)
    ensures Restored(q, scales, s, gs, out, i)
  {
  }

  /** The error of element i. */
  predicate Close(x: seq<real>, scales: seq<real>, gs: nat, out: seq<real>, i: nat)
    requires gs > 0 && i < |x| && i < |out|
  {
    Group(gs, i) < |scales| && Abs(out[i] - x[i]) <= scales[Group(gs, i)] * 0.5
  }

  lemma GoodRestored(x: seq<real>, s: Scheme, gs: nat, buf: seq<Byte>, scales: seq<real>, out: seq<real>, i: nat)
    requires gs > 0 && i < |x| && |buf| >= ValueBytes(s, |x|) && (s.bits == 4 || s.bits == 8) && i < |out|
    requires Good(x, s, gs, buf, scales, i) && Restored(buf, scales, s, gs, out, i)
    ensures Close(x, scales, gs, out, i)
  {
    hide ScaleOf, Stored, QuantOf, Group, ValueBytes;
    var g := Group(gs, i);
    GroupOf(|x|, gs, i);
    ErrorBound(x, g * gs, GroupEnd(|x|, gs, g), i, QMax(s));
  }

  /** Quantize, then dequantize: every element comes back within half the scale of its
      group, for both widths, every group size and every length. */
  method QuantizeRoundTrip(src: seq<real>, s: Scheme, packed: array<Byte>, scales: array<real>, out: array<real>)
    returns (st: QStatus)
    requires packed.Length >= ValueBytes(s, |src|) && scales.Length >= NumGroups(s, |src|) && out.Length >= |src|
    requires scales != out
    modifies packed, scales, out
    ensures st == GroupSize(s, |src|).0
    ensures st == Done ==> GroupSize(s, |src|).1 > 0
    ensures st == Done ==> forall i :: 0 <= i < |src| ==> Close(src, scales[..], GroupSize(s, |src|).1, out[..], i)
  {
    hide Good, Restored, Close, NumGroups, ValueBytes;
    var groups;
    st, groups := QuantizeAll(src, s, packed, scales);
    if st != Done {
      return;
    }
    ghost var gs, b, c := GroupSize(s, |src|).1, packed[..], scales[..];
    st := DequantizeAll(packed[..], scales[..], |src|, s, out);
    forall i | 0 <= i < |src|
      ensures Close(src, c, gs, out[..], i)
    {
      GoodRestored(src, s, gs, b, c, out[..], i);
    }
  }
}
