/** The program builders, the encoder and the decoder of ir/ir.c. */
module IrCode {
  import opened Mem
  import opened Bytes
  import opened Ir
  import Frame
  import Crc32
  import Net
  import Tensor
  import IrRoundTrip

  const DEFAULT_ALIGN: U64 := 16

  /** `memset`, then `memcpy` of the used dimensions. */
  function Padded(shape: seq<U64>): (s: Shape)
    requires |shape| <= 6
    ensures s[..|shape|] == shape
  {
    seq(6, i requires 0 <= i < 6 => if i < |shape| then shape[i] else 0)
  }

  function NewValue(dtype: Byte, shape: seq<U64>, size: U64, align: U64, kind: Byte, device: Byte): Value
    requires |shape| <= 6
  {
    Value(dtype, |shape|, kind, device, Padded(shape), size, if align != 0 then align else DEFAULT_ALIGN, Unquantized)
  }

  lemma NewValueOk(dtype: Byte, shape: seq<U64>, size: U64, align: U64, kind: Byte, device: Byte)
    requires Tensor.SizeOk(dtype, shape, size) && dtype < Tensor.DTYPE_COUNT && kind < VALUE_KINDS && device < DEVICES
    requires align == 0 || IsPow2(align)
    ensures |shape| <= 6 && ValueOk(NewValue(dtype, shape, size, align, kind, device))
  {
    hide Tensor.Product;
  }

  lemma HasRank(dtype: nat, shape: seq<U64>)
    ensures Tensor.HasSize(dtype, shape) ==> 0 < |shape| <= Tensor.MAX_RANK && dtype < Tensor.DTYPE_COUNT
                                             && Tensor.Product(shape) * Tensor.DtypeSize(dtype) <= U64_MAX
  {
  }

  /** More values leave all ids valid. */
  lemma OneMoreValue(p: Program, v: Value)
    requires Built(p) && ValueOk(v) && |p.values| < MAX_VALUES
    ensures Built(p.(values := p.values + [v]))
  {
    hide ValueOk;
    forall o | 0 <= o < |p.ops|
      ensures OpOk(p.ops[o], |p.values| + 1)
    {
      assert OpOk(p.ops[o], |p.values|);
    }
  }

  /* ---- appending to a buffer ---- */

  /** The first p bytes of buf are done; the others are as in blank. */
  predicate Wrote(buf: seq<bv8>, p: nat, done: seq<bv8>, blank: seq<bv8>) {
    |buf| == |blank| && p <= |buf| && buf[..p] == done && buf[p..] == blank[p..]
  }

  method PutByte(out: array<bv8>, p: nat, v: Byte, ghost done: seq<bv8>, ghost blank: seq<bv8>)
    requires p < out.Length && Wrote(out[..], p, done, blank)
    modifies out
    ensures Wrote(out[..], p + 1, done + [ByteOf(v)], blank)
  {
    hide ByteOf;
    ghost var was := out[..];
    out[p] := ByteOf(v);
    assert out[..p] == was[..p] && out[p + 1..] == was[p..][1..];
    assert blank[p + 1..] == blank[p..][1..];
  }

  method PutField(out: array<bv8>, p: nat, v: nat, n: nat, ghost done: seq<bv8>, ghost blank: seq<bv8>)
    requires p + n <= out.Length && Wrote(out[..], p, done, blank)
    modifies out
    ensures Wrote(out[..], p + n, done + ToLe(v, n), blank)
  {
    hide ToLe;
    ghost var was := out[..];
    assert out[..p] == was[..p] && out[p..] == was[p..];
    Frame.PutField(out, p, v, n, done, blank);
    assert out[..][..p + n] == out[..p + n] && out[..][p + n..] == out[p + n..];
  }

  method PutWords(out: array<bv8>, p: nat, s: seq<nat>, w: nat, ghost done: seq<bv8>, ghost blank: seq<bv8>)
    returns (q: nat)
    requires p + w * |s| <= out.Length && Wrote(out[..], p, done, blank)
    modifies out
    ensures q == p + w * |s| && Wrote(out[..], q, done + Image(s, w), blank)
  {
    hide ToLe, Image, Wrote;
    q := p;
    ghost var parts := done;
    ImageNone(w);
    assert s[..0] == [];
    assert done + [] == done;
    for i := 0 to |s|
      invariant q == p + w * i && parts == done + Image(s[..i], w)
      invariant Wrote(out[..], q, parts, blank)
    {
      WordFits(w, i, |s|);
      PutField(out, q, s[i], w, parts, blank);
      ImageAppend(s[..i], s[i], w);
      assert s[..i + 1] == s[..i] + [s[i]];
      assert done + (Image(s[..i], w) + ToLe(s[i], w)) == parts + ToLe(s[i], w);
      parts := parts + ToLe(s[i], w);
      q := q + w;
    }
    assert s[..|s|] == s;
  }

  lemma ImageNone(w: nat)
    ensures Image([], w) == []
  {
  }

  lemma WordFits(w: nat, i: nat, n: nat)
    requires i < n
    ensures w * i + w == w * (i + 1) <= w * n
  {
    MulMonotone(i + 1, n, w);
  }

  method PutBytes4(out: array<bv8>, p: nat, a: Byte, b: Byte, c: Byte, d: Byte,
                   ghost done: seq<bv8>, ghost blank: seq<bv8>)
    requires p + 4 <= out.Length && Wrote(out[..], p, done, blank)
    modifies out
    ensures Wrote(out[..], p + 4, done + [ByteOf(a), ByteOf(b), ByteOf(c), ByteOf(d)], blank)
  {
    hide ByteOf, Wrote;
    PutByte(out, p, a, done, blank);
    PutByte(out, p + 1, b, done + [ByteOf(a)], blank);
    PutByte(out, p + 2, c, done + [ByteOf(a)] + [ByteOf(b)], blank);
    PutByte(out, p + 3, d, done + [ByteOf(a)] + [ByteOf(b)] + [ByteOf(c)], blank);
    assert done + [ByteOf(a)] + [ByteOf(b)] + [ByteOf(c)] + [ByteOf(d)]
        == done + [ByteOf(a), ByteOf(b), ByteOf(c), ByteOf(d)];
  }

  method PutQuant(out: array<bv8>, p: nat, q: Quant, ghost done: seq<bv8>, ghost blank: seq<bv8>)
    requires p + 8 <= out.Length && Wrote(out[..], p, done, blank)
    modifies out
    ensures Wrote(out[..], p + 8, done + (QuantBytes(q) + ToLe(q.group, 2)), blank)
  {
    hide ByteOf, ToLe, Wrote;
    PutBytes4(out, p, q.present, q.bitWidth, q.scaleRepr, q.zeroPointRepr, done, blank);
    ghost var d4 := done + [ByteOf(q.present), ByteOf(q.bitWidth), ByteOf(q.scaleRepr), ByteOf(q.zeroPointRepr)];
    PutByte(out, p + 4, q.isSigned, d4, blank);
    PutByte(out, p + 5, q.block, d4 + [ByteOf(q.isSigned)], blank);
    ghost var d6 := d4 + [ByteOf(q.isSigned)] + [ByteOf(q.block)];
    PutField(out, p + 6, q.group, 2, d6, blank);
    assert d6 == done + QuantBytes(q);
    assert d6 + ToLe(q.group, 2) == done + (QuantBytes(q) + ToLe(q.group, 2));
  }

  lemma JoinValue(done: seq<bv8>, v: Value, head: seq<bv8>)
    requires head == [ByteOf(v.dtype), ByteOf(v.rank), ByteOf(v.kind), ByteOf(v.device)]
    ensures done + head + (QuantBytes(v.quant) + ToLe(v.quant.group, 2)) + ToLe(v.align, 8) + ToLe(v.size, 8)
            + Image(v.shape, 8) == done + ValueBytes(v)
  {
    hide ByteOf, ToLe, QuantBytes, Image;
  }

  /** One value record. */
  method PutValue(out: array<bv8>, p: nat, v: Value, ghost done: seq<bv8>, ghost blank: seq<bv8>)
    requires p + VALUE_SIZE <= out.Length && Wrote(out[..], p, done, blank)
    modifies out
    ensures Wrote(out[..], p + VALUE_SIZE, done + ValueBytes(v), blank)
  {
    hide ByteOf, ToLe, Wrote, QuantBytes, Image, ValueBytes;
    PutBytes4(out, p, v.dtype, v.rank, v.kind, v.device, done, blank);
    ghost var head := [ByteOf(v.dtype), ByteOf(v.rank), ByteOf(v.kind), ByteOf(v.device)];
    ghost var d := done + head;
    PutQuant(out, p + 4, v.quant, d, blank);
    d := d + (QuantBytes(v.quant) + ToLe(v.quant.group, 2));
    PutField(out, p + 12, v.align, 8, d, blank);
    d := d + ToLe(v.align, 8);
    PutField(out, p + 20, v.size, 8, d, blank);
    d := d + ToLe(v.size, 8);
    var q := PutWords(out, p + 28, v.shape, 8, d, blank);
    JoinValue(done, v, head);
  }

  lemma JoinOp(done: seq<bv8>, op: Op)
    ensures done + [ByteOf(op.kind), ByteOf(op.device), ByteOf(|op.inputs|), ByteOf(|op.outputs|)] + ToLe(0, 2)
            + ToLe(0, 2) + Image(op.inputs, 2) + Image(op.outputs, 2) == done + OpBytes(op)
  {
    hide ByteOf, ToLe, Image;
  }

  /** One op record. */
  method PutOp(out: array<bv8>, p: nat, op: Op, ghost done: seq<bv8>, ghost blank: seq<bv8>) returns (q: nat)
    requires p + OpSize(|op.inputs|, |op.outputs|) <= out.Length && Wrote(out[..], p, done, blank)
    modifies out
    ensures q == p + OpSize(|op.inputs|, |op.outputs|) && Wrote(out[..], q, done + OpBytes(op), blank)
  {
    hide ByteOf, ToLe, Wrote, Image, OpBytes;
    PutBytes4(out, p, op.kind, op.device, |op.inputs|, |op.outputs|, done, blank);
    ghost var d := done + [ByteOf(op.kind), ByteOf(op.device), ByteOf(|op.inputs|), ByteOf(|op.outputs|)];
    PutField(out, p + 4, 0, 2, d, blank);
    d := d + ToLe(0, 2);
    PutField(out, p + 6, 0, 2, d, blank);
    d := d + ToLe(0, 2);
    q := PutWords(out, p + 8, op.inputs, 2, d, blank);
    d := d + Image(op.inputs, 2);
    q := PutWords(out, q, op.outputs, 2, d, blank);
    JoinOp(done, op);
  }

  lemma {:induction false} ValuesStep(vs: seq<Value>, i: nat)
    requires i < |vs|
    ensures ValuesBytes(vs[..i + 1]) == ValuesBytes(vs[..i]) + ValueBytes(vs[i])
    decreases i
  {
    hide ValueBytes;
    if i == 0 {
      assert vs[..1][1..] == [] && vs[..0] == [];
      assert ValuesBytes(vs[..1]) == ValueBytes(vs[0]) + ValuesBytes([]);
    } else {
      ValuesStep(vs[1..], i - 1);
      assert vs[..i + 1][1..] == vs[1..][..i] && vs[..i][1..] == vs[1..][..i - 1];
    }
  }

  lemma {:induction false} OpsStep(ops: seq<Op>, i: nat)
    requires i < |ops|
    ensures OpsBytes(ops[..i + 1]) == OpsBytes(ops[..i]) + OpBytes(ops[i])
    decreases i
  {
    hide OpBytes;
    if i == 0 {
      assert ops[..1][1..] == [] && ops[..0] == [];
      assert OpsBytes(ops[..1]) == OpBytes(ops[0]) + OpsBytes([]);
    } else {
      OpsStep(ops[1..], i - 1);
      assert ops[..i + 1][1..] == ops[1..][..i] && ops[..i][1..] == ops[1..][..i - 1];
    }
  }

  lemma {:induction false} OpsPrefix(ops: seq<Op>, i: nat)
    requires i <= |ops|
    ensures |OpsBytes(ops[..i])| <= |OpsBytes(ops)|
    decreases |ops| - i
  {
    hide OpBytes, OpsBytes;
    if i == |ops| {
      assert ops[..i] == ops;
    } else {
      OpsStep(ops, i);
      OpsPrefix(ops, i + 1);
    }
  }

  lemma {:induction false} OpsBound(ops: seq<Op>)
    ensures 8 * |ops| <= |OpsBytes(ops)| <= 72 * |ops|
    decreases |ops|
  {
    hide OpBytes;
    if ops != [] {
      OpsBound(ops[1..]);
    }
  }

  lemma NoneYet()
    ensures ValuesBytes([]) == [] && OpsBytes([]) == []
  {
  }

  method PutValues(out: array<bv8>, p: nat, vs: seq<Value>, ghost done: seq<bv8>, ghost blank: seq<bv8>)
    requires p + VALUE_SIZE * |vs| <= out.Length && Wrote(out[..], p, done, blank)
    modifies out
    ensures Wrote(out[..], p + VALUE_SIZE * |vs|, done + ValuesBytes(vs), blank)
  {
    hide Wrote, ValueBytes, ValuesBytes;
    NoneYet();
    assert vs[..0] == [];
    assert done + [] == done;
    ghost var parts := done;
    for i := 0 to |vs|
      invariant parts == done + ValuesBytes(vs[..i]) && Wrote(out[..], p + VALUE_SIZE * i, parts, blank)
    {
      PutValue(out, p + VALUE_SIZE * i, vs[i], parts, blank);
      ValuesStep(vs, i);
      parts := parts + ValueBytes(vs[i]);
    }
    assert vs[..|vs|] == vs;
  }

  method PutOps(out: array<bv8>, p: nat, ops: seq<Op>, ghost done: seq<bv8>, ghost blank: seq<bv8>) returns (q: nat)
    requires p + |OpsBytes(ops)| <= out.Length && Wrote(out[..], p, done, blank)
    modifies out
    ensures q == p + |OpsBytes(ops)| && Wrote(out[..], q, done + OpsBytes(ops), blank)
  {
    hide Wrote, OpBytes, OpsBytes;
    NoneYet();
    assert ops[..0] == [];
    assert done + [] == done;
    q := p;
    ghost var parts := done;
    for i := 0 to |ops|
      invariant q == p + |OpsBytes(ops[..i])|
      invariant parts == done + OpsBytes(ops[..i]) && Wrote(out[..], q, parts, blank)
    {
      OpsStep(ops, i);
      OpsPrefix(ops, i + 1);
      q := PutOp(out, q, ops[i], parts, blank);
      parts := parts + OpBytes(ops[i]);
    }
    assert ops[..|ops|] == ops;
  }

  /* ---- the header ---- */

  lemma {:induction false} Zeros(b: seq<bv8>)
    requires forall i :: 0 <= i < |b| ==> b[i] == ByteOf(0)
    ensures b == ToLe(0, |b|)
    decreases |b|
  {
    hide ByteOf;
    if b != [] {
      Zeros(b[1..]);
      assert b == [b[0]] + b[1..];
    }
  }

  /** Bytes that already hold zeros count as written. */
  lemma Skip(buf: seq<bv8>, p: nat, n: nat, done: seq<bv8>, blank: seq<bv8>)
    requires Wrote(buf, p, done, blank) && p + n <= |buf|
    requires forall i :: p <= i < p + n ==> blank[i] == ByteOf(0)
    ensures Wrote(buf, p + n, done + ToLe(0, n), blank)
  {
    hide ByteOf, ToLe;
    var z := blank[p..p + n];
    Zeros(z);
    assert buf[p..p + n] == buf[p..][..n] == blank[p..][..n] == z;
    assert buf[..p + n] == buf[..p] + buf[p..p + n];
    assert buf[p + n..] == buf[p..][n..] == blank[p..][n..] == blank[p + n..];
  }

  method PutHeader(out: array<bv8>, values: nat, ops: nat, ins: nat, outs: nat) returns (ghost blank: seq<bv8>)
    requires out.Length >= HEADER_SIZE
    modifies out
    ensures |blank| == out.Length && blank[HEADER_SIZE..] == old(out[HEADER_SIZE..])
    ensures Wrote(out[..], HEADER_SIZE, Lead(values, ops, ins, outs) + ToLe(0, 4) + ToLe(0, 4), blank)
  {
    hide ToLe, ByteOf, Wrote;
    forall i | 0 <= i < HEADER_SIZE {
      out[i] := ByteOf(0);
    }
    blank := out[..];
    assert blank[HEADER_SIZE..] == old(out[HEADER_SIZE..]);
    Untouched(blank);
    PutField(out, 0, MAGIC, 4, [], blank);
    ghost var d := [] + ToLe(MAGIC, 4);
    PutField(out, 4, VERSION, 2, d, blank);
    d := d + ToLe(VERSION, 2);
    Skip(out[..], 6, 2, d, blank);
    d := d + ToLe(0, 2);
    PutField(out, 8, values, 4, d, blank);
    d := d + ToLe(values, 4);
    PutField(out, 12, ops, 4, d, blank);
    d := d + ToLe(ops, 4);
    PutField(out, 16, ins, 4, d, blank);
    d := d + ToLe(ins, 4);
    PutField(out, 20, outs, 4, d, blank);
    d := d + ToLe(outs, 4);
    assert [] + ToLe(MAGIC, 4) == ToLe(MAGIC, 4);
    assert d == Lead(values, ops, ins, outs);
    Skip(out[..], 24, 4, d, blank);
    Skip(out[..], 28, 4, d + ToLe(0, 4), blank);
  }

  lemma Untouched(blank: seq<bv8>)
    ensures Wrote(blank, 0, [], blank)
  {
  }

  lemma Finished(buf: seq<bv8>, end: seq<bv8>, lead: seq<bv8>, body: seq<bv8>, blank: seq<bv8>, crc: bv32)
    requires |lead| == CRC_COVER
    requires var n := HEADER_SIZE + |body|;
             Wrote(buf, n, lead + ToLe(0, 4) + ToLe(0, 4) + body, blank)
    requires |end| == |buf| && end[..24] == buf[..24] && end[24..28] == ToLe(Val32(crc), 4) && end[28..] == buf[28..]
    requires crc == Crc32.Crc(lead + body)
    ensures end[..HEADER_SIZE + |body|] == Sealed(lead, body)
    ensures end[HEADER_SIZE + |body|..] == blank[HEADER_SIZE + |body|..]
  {
    hide ToLe;
    hide Crc32.Crc;
    var n := HEADER_SIZE + |body|;
    var b := buf[..n];
    assert buf[..24] == b[..24] == lead;
    assert buf[28..] == b[28..] + buf[n..];
    assert b[28..] == ToLe(0, 4) + body;
    assert end == end[..24] + end[24..28] + end[28..];
    assert end == lead + ToLe(Val32(crc), 4) + (ToLe(0, 4) + body + buf[n..]);
    assert end == Sealed(lead, body) + buf[n..];
  }

  lemma HashedParts(buf: seq<bv8>, lead: seq<bv8>, body: seq<bv8>, blank: seq<bv8>)
    requires |lead| == CRC_COVER
    requires Wrote(buf, HEADER_SIZE + |body|, lead + ToLe(0, 4) + ToLe(0, 4) + body, blank)
    ensures buf[..CRC_COVER] == lead && buf[HEADER_SIZE..HEADER_SIZE + |body|] == body
  {
    hide ToLe;
    var b := buf[..HEADER_SIZE + |body|];
    assert buf[..CRC_COVER] == b[..CRC_COVER];
    assert buf[HEADER_SIZE..HEADER_SIZE + |body|] == b[HEADER_SIZE..];
  }

  lemma JoinBody(start: seq<bv8>, p: Program)
    ensures start + ValuesBytes(p.values) + OpsBytes(p.ops) + Image(p.inputIds, 4) + Image(p.outputIds, 4)
            == start + Body(p)
    ensures |Body(p)| == VALUE_SIZE * |p.values| + |OpsBytes(p.ops)| + 4 * (|p.inputIds| + |p.outputIds|)
  {
    hide ValuesBytes, OpsBytes, Image;
    assert Body(p) == ValuesBytes(p.values) + OpsBytes(p.ops) + Image(p.inputIds, 4) + Image(p.outputIds, 4);
  }

  lemma EncodedLength(p: Program)
    ensures |Encoded(p)| == HEADER_SIZE + |Body(p)|
    ensures |Encoded(p)| == HEADER_SIZE + VALUE_SIZE * |p.values| + |OpsBytes(p.ops)|
                            + 4 * (|p.inputIds| + |p.outputIds|)
  {
    hide Body, ToLe;
    JoinBody([], p);
  }

  /* ---- reading ---- */

  lemma {:induction false} WordAt(b: seq<bv8>, w: nat, n: nat, i: nat)
    requires w * n <= |b| && i < n
    ensures 0 <= w * i <= w * i + w <= |b| && Words(b, w, n)[i] == Le(b[w * i..w * i + w])
    decreases n
  {
    hide Le, Words;
    if i == 0 {
      WordFits(w, 0, n);
      FirstWord(b, w, n);
      assert w * 0 == 0 && w * i + w == w;
    } else {
      WordFits(w, n - 1, n);
      WordFits(w, i - 1, i);
      var q, rest := w * (i - 1), b[w..];
      WordAt(rest, w, n - 1, i - 1);
      LaterWord(b, w, n, i);
      SliceBehind(b, w, q, w);
      var at := w * i;
      assert at == q + w;
      assert b[at..at + w] == b[q + w..q + w + w];
    }
  }

  lemma FirstWord(b: seq<bv8>, w: nat, n: nat)
    requires w <= |b| && n > 0
    ensures Words(b, w, n)[0] == Le(b[0..w])
  {
    hide Le;
    assert b[0..w] == b[..w];
  }

  lemma LaterWord(b: seq<bv8>, w: nat, n: nat, i: nat)
    requires w <= |b| && 0 < i < n
    ensures Words(b, w, n)[i] == Words(b[w..], w, n - 1)[i - 1]
  {
    hide Le;
  }

  lemma SliceBehind(b: seq<bv8>, p: nat, q: nat, k: nat)
    requires p <= |b| && q + k <= |b| - p
    ensures b[p..][q..q + k] == b[q + p..q + p + k]
  {
  }

  /** Ids in a list of words, refused unless all are in 1..count. */
  method ReadIds(b: seq<bv8>, p: nat, w: nat, n: nat, count: nat) returns (ok: bool, ids: seq<nat>)
    requires p + w * n <= |b|
    ensures ok <==> IdsOk(Words(b[p..], w, n), count)
    ensures ok ==> ids == Words(b[p..], w, n)
  {
    hide Le, Words;
    ghost var words := Words(b[p..], w, n);
    ids := [];
    for i := 0 to n
      invariant ids == words[..i] && IdsOk(ids, count)
    {
      WordAt(b[p..], w, n, i);
      assert b[p..][w * i..w * i + w] == b[p + w * i..p + w * i + w];
      var id: nat := Le(b[p + w * i..p + w * i + w]);
      if id == 0 || id > count {
        return false, ids;
      }
      ids := ids + [id];
    }
    ok := true;
  }

  /** The same for outputs, which must also be distinct and no inputs. */
  method ReadOutputs(b: seq<bv8>, p: nat, n: nat, count: nat, inputs: seq<nat>) returns (ok: bool, ids: seq<nat>)
    requires p + 2 * n <= |b|
    ensures var words := Words(b[p..], 2, n);
            ok <==> IdsOk(words, count) && Net.Distinct(words) && Apart(inputs, words)
    ensures ok ==> ids == Words(b[p..], 2, n)
  {
    hide Le, Words;
    ghost var words := Words(b[p..], 2, n);
    ids := [];
    for i := 0 to n
      invariant ids == words[..i] && IdsOk(ids, count) && Net.Distinct(ids) && Apart(inputs, ids)
    {
      WordAt(b[p..], 2, n, i);
      assert b[p..][2 * i..2 * i + 2] == b[p + 2 * i..p + 2 * i + 2];
      var id: nat := Le(b[p + 2 * i..p + 2 * i + 2]);
      if id == 0 || id > count {
        return false, ids;
      }
      for k := 0 to i
        invariant forall j :: 0 <= j < k ==> ids[j] != id
      {
        if ids[k] == id {
          assert words[k] == words[i];
          return false, ids;
        }
      }
      for k := 0 to |inputs|
        invariant forall j :: 0 <= j < k ==> inputs[j] != id
      {
        if inputs[k] == id {
          assert inputs[k] == words[i];
          return false, ids;
        }
      }
      ids := ids + [id];
    }
    ok := true;
  }

  method CheckQuant(q: Quant) returns (ok: bool)
    ensures ok <==> QuantOk(q)
  {
    ok := !(q.present != 0
            && (q.bitWidth == 0 || q.bitWidth > 64 || q.scaleRepr >= REPRS || q.zeroPointRepr >= REPRS
                || q.block >= BLOCKS || (q.block == BLOCK_GROUP && q.group == 0)));
  }

  /** One value record. */
  method ReadValue(r: seq<bv8>) returns (ok: bool, v: Value)
    requires |r| == VALUE_SIZE
    ensures v == ValueOf(r)
    ensures ok <==> ValueOk(v)
  {
    hide Tensor.HasSize, Tensor.Product, Tensor.DtypeSize;
    v := ValueOf(r);
    if v.dtype >= Tensor.DTYPE_COUNT || v.rank == 0 || v.rank > Tensor.MAX_RANK || v.kind >= VALUE_KINDS
       || v.device >= DEVICES {
      return false, v;
    }
    ok := CheckQuant(v.quant);
    if !ok {
      return;
    }
    var sized, bytes := Tensor.ContiguousSize(v.dtype, v.shape[..v.rank]);
    if !sized || bytes != v.size || v.size == 0 {
      return false, v;
    }
    ok := IsPow2(v.align);
  }

  /** One op record. */
  method ReadOp(r: seq<bv8>, count: nat) returns (ok: bool, op: Op)
    requires |r| >= 8 && |r| == OpLen(r)
    ensures Admitted(r, count) == if ok then Frame.Value(op) else Frame.Fail(Protocol)
  {
    hide Le, Words, Val, Apart, IdsOk;
    op := Op(0, 0, [], []);
    var ni, no := Val(r[2]), Val(r[3]);
    if Val(r[0]) >= OP_KINDS || Val(r[1]) >= DEVICES || ni == 0 || ni > MAX_ARITY || no == 0 || no > MAX_ARITY {
      return false, op;
    }
    assert Behind(r, 8) == r[8..] && Behind(r, 8 + 2 * ni) == r[8 + 2 * ni..];
    WordsBound(r[8..], 2, ni);
    WordsBound(r[8 + 2 * ni..], 2, no);
    Widths();
    var inputs, outputs;
    ok, inputs := ReadIds(r, 8, 2, ni, count);
    if !ok {
      return;
    }
    ok, outputs := ReadOutputs(r, 8 + 2 * ni, no, count, inputs);
    if !ok {
      return;
    }
    op := Op(Val(r[0]), Val(r[1]), inputs, outputs);
  }

  lemma MeasureStep(body: seq<bv8>, at: nat, end: nat, n: nat)
    requires at <= end <= |body| && n > 0
    ensures end + 8 > |body| ==> OpsLen(body[end..], n) == -1
    ensures end + 8 <= |body| ==>
              var len := OpSize(Val(body[end + 2]), Val(body[end + 3]));
              if end + len > |body| then OpsLen(body[end..], n) == -1
              else var k := OpsLen(body[end + len..], n - 1);
                   OpsLen(body[end..], n) == if k < 0 then -1 else len + k
  {
    hide Val;
    var b := body[end..];
    if end + 8 <= |body| {
      var len := OpLen(b);
      if end + len <= |body| {
        assert b[len..] == body[end + len..];
      }
    }
  }

  lemma MeasuredAll(b: seq<bv8>)
    ensures OpsLen(b, 0) == 0
  {
  }

  /** The bounds pass over the op records: their end, or refused. */
  method MeasureOps(body: seq<bv8>, at: nat, n: nat) returns (ok: bool, end: nat)
    requires at <= |body|
    ensures ok <==> OpsLen(body[at..], n) >= 0
    ensures ok ==> end == at + OpsLen(body[at..], n)
  {
    hide Val, OpsLen;
    end := at;
    for o := 0 to n
      invariant at <= end <= |body|
      invariant var k := OpsLen(body[end..], n - o);
                OpsLen(body[at..], n) == if k < 0 then -1 else end - at + k
    {
      MeasureStep(body, at, end, n - o);
      if end + 8 > |body| {
        return false, end;
      }
      var len := OpSize(Val(body[end + 2]), Val(body[end + 3]));
      if end + len > |body| {
        return false, end;
      }
      end := end + len;
    }
    MeasuredAll(body[end..]);
    ok := true;
  }

  method ReadValues(body: seq<bv8>, n: nat) returns (ok: bool, vs: seq<Value>)
    requires VALUE_SIZE * n <= |body|
    ensures ok <==> ValuesOk(ValuesOf(body, n))
    ensures ok ==> vs == ValuesOf(body, n)
  {
    hide ValueOf, ValueOk;
    vs := [];
    for v := 0 to n
      invariant |vs| == v && ValuesOk(vs)
      invariant ValuesOf(body, n) == vs + ValuesOf(body[VALUE_SIZE * v..], n - v)
    {
      var rest := body[VALUE_SIZE * v..];
      var good, value := ReadValue(rest[..VALUE_SIZE]);
      assert rest[VALUE_SIZE..] == body[VALUE_SIZE * (v + 1)..];
      assert ValuesOf(rest, n - v) == [value] + ValuesOf(rest[VALUE_SIZE..], n - v - 1);
      if !good {
        assert ValuesOf(body, n)[v] == value;
        return false, vs;
      }
      vs := vs + [value];
    }
    ok := true;
  }

  ghost function Joined(done: seq<Op>, rest: Frame.Result<seq<Op>>): Frame.Result<seq<Op>> {
    match rest
    case Fail(e) => Frame.Fail(e)
    case Value(ops) => Frame.Value(done + ops)
  }

  lemma ReadOpsStep(b: seq<bv8>, n: nat, count: nat)
    requires n > 0 && OpsLen(b, n) >= 0
    ensures 8 <= |b| && 8 <= OpLen(b) <= |b| && OpsLen(b[OpLen(b)..], n - 1) >= 0
    ensures ReadOps(b, n, count) == Cons(Admitted(b[..OpLen(b)], count), ReadOps(b[OpLen(b)..], n - 1, count))
  {
    hide Admitted;
  }

  lemma JoinTwice(done: seq<Op>, op: Op, rest: Frame.Result<seq<Op>>)
    ensures Joined(done, Cons(Frame.Value(op), rest)) == Joined(done + [op], rest)
  {
    if rest.Value? {
      assert done + ([op] + rest.value) == (done + [op]) + rest.value;
    }
  }

  method ReadAllOps(body: seq<bv8>, at: nat, n: nat, count: nat) returns (ok: bool, ops: seq<Op>)
    requires at <= |body| && OpsLen(body[at..], n) >= 0
    ensures ReadOps(body[at..], n, count) == if ok then Frame.Value(ops) else Frame.Fail(Protocol)
  {
    hide OpLen, Admitted, OpsLen, ReadOps;
    var p := at;
    ops := [];
    JoinNothing(ReadOps(body[at..], n, count));
    for o := 0 to n
      invariant at <= p <= |body| && OpsLen(body[p..], n - o) >= 0
      invariant ReadOps(body[at..], n, count) == Joined(ops, ReadOps(body[p..], n - o, count))
    {
      var b := body[p..];
      ReadOpsStep(b, n - o, count);
      var len := OpLen(b);
      var r := b[..len];
      IrRoundTrip.CutLen(b, len);
      var good, op := ReadOp(r, count);
      if !good {
        return false, ops;
      }
      assert b[len..] == body[p + len..];
      JoinTwice(ops, op, ReadOps(b[len..], n - o - 1, count));
      ops := ops + [op];
      p := p + len;
    }
    NoOpsLeft(body[p..], count);
    assert ops + [] == ops;
    ok := true;
  }

  lemma JoinNothing(r: Frame.Result<seq<Op>>)
    ensures Joined([], r) == r
  {
    if r.Value? {
      assert [] + r.value == r.value;
    }
  }

  lemma NoOpsLeft(b: seq<bv8>, count: nat)
    ensures OpsLen(b, 0) == 0 && ReadOps(b, 0, count) == Frame.Value([])
  {
  }

  /** The record area, after the integrity check. */
  method ReadProgram(body: seq<bv8>, values: nat, ops: nat, ins: nat, outs: nat) returns (ok: bool, p: Program)
    ensures ok <==> Contained(body, values, ops, ins + outs) && ReadBody(body, values, ops, ins, outs).Value?
    ensures ok ==> ReadBody(body, values, ops, ins, outs) == Frame.Value(p)
    ensures !ok && Contained(body, values, ops, ins + outs) ==>
              ReadBody(body, values, ops, ins, outs) == Frame.Fail(Protocol)
  {
    hide ValuesOf, ReadOps, OpsLen, Words, ValuesOk, IdsOk;
    p := Empty;
    if VALUE_SIZE * values > |body| {
      return false, p;
    }
    var at := VALUE_SIZE * values;
    var end;
    ok, end := MeasureOps(body, at, ops);
    if !ok || end + 4 * (ins + outs) > |body| {
      return false, p;
    }
    var vs, os, inIds, outIds;
    ok, vs := ReadValues(body, values);
    if !ok {
      AnyOpsError(body[at..], ops, values);
      return;
    }
    ok, os := ReadAllOps(body, at, ops, values);
    if !ok {
      return;
    }
    ok, inIds := ReadIds(body, end, 4, ins, values);
    if !ok {
      return;
    }
    ok, outIds := ReadIds(body, end + 4 * ins, 4, outs, values);
    if !ok {
      return;
    }
    p := Program(vs, os, IdsOf(body[end..], ins), IdsOf(body[end + 4 * ins..], outs));
  }

  lemma {:induction false} AnyOpsError(b: seq<bv8>, n: nat, count: nat)
    requires OpsLen(b, n) >= 0
    ensures ReadOps(b, n, count).Fail? ==> ReadOps(b, n, count) == Frame.Fail(Protocol)
    decreases n
  {
    hide OpOf;
    if n != 0 {
      AnyOpsError(b[OpLen(b)..], n - 1, count);
    }
  }

  /** Magic, version, reserved fields, capacities and checksum. */
  method CheckHeader(data: seq<bv8>, table: Crc32.Table) returns (ok: bool)
    requires table.Valid() && |data| >= HEADER_SIZE
    modifies table, table.entries
    ensures table.Valid() && (ok <==> HeaderOk(data))
  {
    hide Le;
    hide Crc32.Crc, Crc32.IsTable;
    if Le(data[0..4]) != MAGIC || Le(data[4..6]) != VERSION || Le(data[6..8]) != 0 || Le(data[28..32]) != 0 {
      return false;
    }
    var nv, no, ni, nq := Le(data[8..12]), Le(data[12..16]), Le(data[16..20]), Le(data[20..24]);
    if nv > MAX_VALUES || no > MAX_OPS || ni > MAX_VALUES || nq > MAX_VALUES {
      return false;
    }
    var crc := Frame.Checksum(table, data[..CRC_COVER], data[HEADER_SIZE..]);
    ok := Val32(crc) == Le(data[24..28]);
  }

  lemma DecodeParts(d: seq<bv8>)
    ensures |d| < HEADER_SIZE ==> Ir.Decode(d) == Frame.Fail(InvalidArg)
    ensures |d| >= HEADER_SIZE && !HeaderOk(d) ==> Ir.Decode(d) == Frame.Fail(Protocol)
    ensures |d| >= HEADER_SIZE && HeaderOk(d) ==>
              var body := d[HEADER_SIZE..];
              var nv, no, ni, nq := Le(d[8..12]), Le(d[12..16]), Le(d[16..20]), Le(d[20..24]);
              Ir.Decode(d) == if Contained(body, nv, no, ni + nq) then ReadBody(body, nv, no, ni, nq)
                              else Frame.Fail(Protocol)
  {
    hide HeaderOk, Contained, ReadBody, Le;
  }

  method ReadBlob(data: seq<bv8>, table: Crc32.Table) returns (st: Status, p: Program)
    requires table.Valid()
    modifies table, table.entries
    ensures table.Valid()
    ensures Ir.Decode(data) == if st == Ok then Frame.Value(p) else Frame.Fail(st)
  {
    hide Le, Contained, ReadBody, HeaderOk, Ir.Decode;
    hide Crc32.IsTable;
    DecodeParts(data);
    p := Empty;
    if |data| < HEADER_SIZE {
      return InvalidArg, p;
    }
    var ok := CheckHeader(data, table);
    if !ok {
      return Protocol, p;
    }
    var nv, no, ni, nq := Le(data[8..12]), Le(data[12..16]), Le(data[16..20]), Le(data[20..24]);
    ok, p := ReadProgram(data[HEADER_SIZE..], nv, no, ni, nq);
    st := if ok then Ok else Protocol;
  }

  /* ---- the program object ---- */

  /** `pai_ir_program_t`. */
  class IrProgram {
    var values: seq<Value>
    var ops: seq<Op>
    var inputIds: seq<U32>
    var outputIds: seq<U32>

    ghost function Abs(): Program
      reads this
    {
      Program(values, ops, inputIds, outputIds)
    }

    ghost predicate Valid()
      reads this
    {
      Built(Abs())
    }

    constructor ()
      ensures Valid() && Abs() == Empty
    {
      values, ops, inputIds, outputIds := [], [], [], [];
    }

    /** `pai_ir_init`. */
    method Init()
      modifies this
      ensures Valid() && Abs() == Empty
    {
      values, ops, inputIds, outputIds := [], [], [], [];
    }

    /** `pai_ir_add_value`: a fresh id, or 0. */
    method AddValue(dtype: nat, shape: seq<U64>, align: U64, kind: nat, device: nat) returns (id: nat)
      requires Valid()
      modifies this`values
      ensures Valid()
      ensures id != 0 <==> Tensor.HasSize(dtype, shape) && |old(values)| < MAX_VALUES && (align == 0 || IsPow2(align))
                           && kind < VALUE_KINDS && device < DEVICES
      ensures id == 0 ==> values == old(values)
      ensures id != 0 ==> id == |old(values)| + 1 && dtype < Tensor.DTYPE_COUNT && |shape| <= Tensor.MAX_RANK
                          && Tensor.Product(shape) * Tensor.DtypeSize(dtype) <= U64_MAX
                          && var size := Tensor.Product(shape) * Tensor.DtypeSize(dtype);
                             values == old(values) + [NewValue(dtype, shape, size, align, kind, device)]
    {
      hide Tensor.Product, Tensor.HasSize, Built, ValueOk, NewValue;
      HasRank(dtype, shape);
      if |shape| == 0 || |shape| > Tensor.MAX_RANK || |values| >= MAX_VALUES || dtype >= Tensor.DTYPE_COUNT
         || kind >= VALUE_KINDS || device >= DEVICES || (align != 0 && !IsPow2(align)) {
        return 0;
      }
      var sized, bytes := Tensor.ContiguousSize(dtype, shape);
      if !sized || bytes == 0 {
        return 0;
      }
      var value := NewValue(dtype, shape, bytes, align, kind, device);
      NewValueOk(dtype, shape, bytes, align, kind, device);
      OneMoreValue(Abs(), value);
      values := values + [value];
      id := |values|;
    }

    /** `pai_ir_value_set_quant`. */
    method SetQuant(id: nat, quant: Quant) returns (st: Status)
      requires Valid()
      modifies this`values
      ensures Valid()
      ensures st == Ok <==> IdOk(id, |old(values)|) && QuantOk(quant)
      ensures st == Ok ==> values == old(values)[id - 1 := old(values)[id - 1].(quant := quant)]
      ensures st != Ok ==> st == InvalidArg && values == old(values)
    {
      hide Tensor.SizeOk, OpsOk;
      if id == 0 || id > |values| {
        return InvalidArg;
      }
      var ok := CheckQuant(quant);
      if !ok {
        return InvalidArg;
      }
      values := values[id - 1 := values[id - 1].(quant := quant)];
      st := Ok;
    }

    /** `pai_ir_add_op`: a fresh id, or 0. */
    method AddOp(kind: nat, device: nat, inputs: seq<U16>, outputs: seq<U16>) returns (id: nat)
      requires Valid()
      modifies this`ops
      ensures Valid()
      ensures id != 0 <==> |inputs| <= MAX_ARITY && |outputs| <= MAX_ARITY && |old(ops)| < MAX_OPS
                           && kind < OP_KINDS && device < DEVICES
                           && OpOk(Op(kind, device, inputs, outputs), |values|)
      ensures id == 0 ==> ops == old(ops)
      ensures id != 0 ==> id == |old(ops)| + 1 && ops == old(ops) + [Op(kind, device, inputs, outputs)]
    {
      hide ValueOk;
      if |inputs| > MAX_ARITY || |outputs| > MAX_ARITY || kind >= OP_KINDS || device >= DEVICES || |ops| >= MAX_OPS {
        return 0;
      }
      var ok := CheckOperands(inputs, outputs, |values|);
      if !ok {
        return 0;
      }
      ops := ops + [Op(kind, device, inputs, outputs)];
      id := |ops|;
    }

    method SetInput(id: U32)
      requires Valid()
      modifies this`inputIds
      ensures Valid()
      ensures inputIds == if IdOk(id, |values|) && |old(inputIds)| < MAX_VALUES then old(inputIds) + [id]
                          else old(inputIds)
    {
      hide ValueOk, OpOk;
      if id == 0 || id > |values| || |inputIds| >= MAX_VALUES {
        return;
      }
      inputIds := inputIds + [id];
    }

    method SetOutput(id: U32)
      requires Valid()
      modifies this`outputIds
      ensures Valid()
      ensures outputIds == if IdOk(id, |values|) && |old(outputIds)| < MAX_VALUES then old(outputIds) + [id]
                           else old(outputIds)
    {
      hide ValueOk, OpOk;
      if id == 0 || id > |values| || |outputIds| >= MAX_VALUES {
        return;
      }
      outputIds := outputIds + [id];
    }

    /** `pai_ir_encoded_size`; with the capacities of a program the sum always fits 32 bits. */
    method EncodedSize() returns (n: nat)
      requires Valid()
      ensures n == |Encoded(Abs())|
    {
      hide ValuesOk, OpsOk, IdsOk, OpBytes, OpsBytes, Encoded;
      var opBytes := 0;
      NoneYet();
      assert ops[..0] == [];
      for o := 0 to |ops|
        invariant opBytes == |OpsBytes(ops[..o])|
      {
        OpsStep(ops, o);
        opBytes := opBytes + OpSize(|ops[o].inputs|, |ops[o].outputs|);
      }
      assert ops[..|ops|] == ops;
      OpsBound(ops);
      EncodedLength(Abs());
      n := HEADER_SIZE + VALUE_SIZE * |values| + opBytes + (|inputIds| + |outputIds|) * 4;
      assert n <= 0xFFFF_FFFF;
    }

    /** `pai_ir_encode`: the blob, or an untouched buffer that is too small. */
    method Encode(out: array<bv8>, cap: nat, table: Crc32.Table) returns (st: Status, n: nat)
      requires Valid() && table.Valid() && cap <= out.Length
      modifies out, table, table.entries
      ensures table.Valid()
      ensures st == Ok <==> |Encoded(Abs())| <= cap
      ensures st == Ok ==> n == |Encoded(Abs())| && out[..n] == Encoded(Abs()) && out[n..] == old(out[n..])
      ensures st != Ok ==> st == InvalidArg && out[..] == old(out[..])
    {
      hide Built, Wrote, Sealed, Lead, Body, ToLe, Image, ValuesBytes, OpsBytes;
      hide Crc32.Crc, Crc32.IsTable;
      ghost var p := Abs();
      var total := EncodedSize();
      EncodedLength(p);
      if total == 0 || total > cap {
        return InvalidArg, 0;
      }
      ghost var blank := PutHeader(out, |values|, |ops|, |inputIds|, |outputIds|);
      ghost var d := LeadOf(p) + ToLe(0, 4) + ToLe(0, 4);
      ghost var start := d;
      PutValues(out, HEADER_SIZE, values, d, blank);
      d := d + ValuesBytes(values);
      var at := HEADER_SIZE + VALUE_SIZE * |values|;
      at := PutOps(out, at, ops, d, blank);
      d := d + OpsBytes(ops);
      at := PutWords(out, at, inputIds, 4, d, blank);
      d := d + Image(inputIds, 4);
      at := PutWords(out, at, outputIds, 4, d, blank);
      JoinBody(start, p);
      ghost var buf := out[..];
      assert Wrote(buf, HEADER_SIZE + |Body(p)|, start + Body(p), blank);
      HashedParts(buf, LeadOf(p), Body(p), blank);
      assert out[..CRC_COVER] == buf[..CRC_COVER] && out[HEADER_SIZE..total] == buf[HEADER_SIZE..total];
      var crc := Frame.Checksum(table, out[..CRC_COVER], out[HEADER_SIZE..total]);
      assert out[..] == buf;
      Frame.PutLe(out, 24, Val32(crc), 4);
      ghost var end := out[..];
      assert end[..24] == buf[..24] && end[24..28] == ToLe(Val32(crc), 4) && end[28..] == buf[28..];
      Finished(buf, end, LeadOf(p), Body(p), blank, crc);
      assert out[..total] == end[..total] && out[total..] == end[total..];
      Tails(blank, old(out[..]), total);
      st, n := Ok, total;
    }

    /** `pai_ir_decode`. */
    method Decode(data: seq<bv8>, table: Crc32.Table) returns (st: Status)
      requires table.Valid()
      modifies this, table, table.entries
      ensures table.Valid()
      ensures Ir.Decode(data) == if st == Ok then Frame.Value(Abs()) else Frame.Fail(st)
      ensures st == Ok ==> Valid()
    {
      hide Built, Ir.Decode, Encoded, Loadable;
      hide Crc32.IsTable;
      var p;
      st, p := ReadBlob(data, table);
      if st != Ok {
        return;
      }
      IrRoundTrip.DecodeSound(data);
      values, ops, inputIds, outputIds := p.values, p.ops, p.inputIds, p.outputIds;
    }
  }

  lemma Tails(a: seq<bv8>, b: seq<bv8>, n: nat)
    requires |a| == |b| && HEADER_SIZE <= n <= |a| && a[HEADER_SIZE..] == b[HEADER_SIZE..]
    ensures a[n..] == b[n..]
  {
    assert a[n..] == a[HEADER_SIZE..][n - HEADER_SIZE..] && b[n..] == b[HEADER_SIZE..][n - HEADER_SIZE..];
  }

  /** The id, duplicate and self-consumption checks of `pai_ir_add_op`. */
  method CheckOperands(inputs: seq<nat>, outputs: seq<nat>, count: nat) returns (ok: bool)
    ensures ok <==> IdsOk(inputs, count) && IdsOk(outputs, count) && Net.Distinct(outputs) && Apart(inputs, outputs)
  {
    for i := 0 to |inputs|
      invariant IdsOk(inputs[..i], count)
    {
      if inputs[i] == 0 || inputs[i] > count {
        return false;
      }
    }
    assert inputs[..|inputs|] == inputs;
    for i := 0 to |outputs|
      invariant IdsOk(outputs[..i], count) && Net.Distinct(outputs[..i]) && Apart(inputs, outputs[..i])
    {
      if outputs[i] == 0 || outputs[i] > count {
        return false;
      }
      for k := 0 to i
        invariant forall j :: 0 <= j < k ==> outputs[j] != outputs[i]
      {
        if outputs[k] == outputs[i] {
          return false;
        }
      }
      for k := 0 to |inputs|
        invariant forall j :: 0 <= j < k ==> inputs[j] != outputs[i]
      {
        if outputs[i] == inputs[k] {
          return false;
        }
      }
    }
    assert outputs[..|outputs|] == outputs;
    ok := true;
  }
}
