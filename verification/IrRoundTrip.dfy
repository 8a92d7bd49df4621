/** Writing a program and reading it back; damage is noticed (ir/ir.c). */
module IrRoundTrip {
  import opened Mem
  import opened Bytes
  import opened Ir
  import Frame
  import Crc32
  import Net

  /* ---- one value record ---- */

  lemma QuantReads(q: Quant)
    ensures QuantOf(QuantBytes(q) + ToLe(q.group, 2)) == q
  {
    hide ToLe, ByteOf, Le;
    var r := QuantBytes(q) + ToLe(q.group, 2);
    assert r[6..8] == ToLe(q.group, 2);
    Widths();
    LeToLe(q.group, 2);
  }

  /** The fields of an encoded value, where the decoder looks for them. */
  lemma ValueFields(v: Value)
    ensures var r := ValueBytes(v);
            && r[0] == ByteOf(v.dtype) && r[1] == ByteOf(v.rank) && r[2] == ByteOf(v.kind) && r[3] == ByteOf(v.device)
            && r[4..12] == QuantBytes(v.quant) + ToLe(v.quant.group, 2) && r[12..20] == ToLe(v.align, 8)
            && r[20..28] == ToLe(v.size, 8) && r[28..] == Image(v.shape, 8)
  {
    hide ToLe, ByteOf, QuantBytes, Image;
  }

  lemma ValueReads(v: Value)
    ensures ValueOf(ValueBytes(v)) == v
  {
    hide ToLe, ByteOf, Le, QuantBytes, QuantOf, Image, ValueBytes, Words;
    ValueFields(v);
    QuantReads(v.quant);
    Widths();
    LeToLe(v.align, 8);
    LeToLe(v.size, 8);
    WordsImage(v.shape, 8, []);
    assert Image(v.shape, 8) + [] == Image(v.shape, 8);
  }

  lemma {:induction false} ValuesRead(vs: seq<Value>, rest: seq<bv8>)
    ensures ValuesOf(ValuesBytes(vs) + rest, |vs|) == vs
    decreases |vs|
  {
    hide ValueBytes, ValueOf;
    if vs != [] {
      var b := ValuesBytes(vs) + rest;
      assert b == ValueBytes(vs[0]) + (ValuesBytes(vs[1..]) + rest);
      assert b[..VALUE_SIZE] == ValueBytes(vs[0]) && b[VALUE_SIZE..] == ValuesBytes(vs[1..]) + rest;
      ValueReads(vs[0]);
      ValuesRead(vs[1..], rest);
    }
  }

  /* ---- op records ---- */

  lemma OpFields(op: Op)
    ensures var r := OpBytes(op);
            && |r| >= 8 && r[0] == ByteOf(op.kind) && r[1] == ByteOf(op.device)
            && r[2] == ByteOf(|op.inputs|) && r[3] == ByteOf(|op.outputs|)
            && Behind(r, 8) == Image(op.inputs, 2) + Image(op.outputs, 2)
            && Behind(r, 8 + 2 * |op.inputs|) == Image(op.outputs, 2) + []
  {
    hide ToLe, ByteOf, Image;
    ImageSize(op.inputs, 2);
    ImageSize(op.outputs, 2);
  }

  lemma OpReads(op: Op)
    ensures OpOf(OpBytes(op)) == op
  {
    hide ToLe, ByteOf, Le, OpBytes, Image, Words;
    OpFields(op);
    Widths();
    WordsImage(op.inputs, 2, Image(op.outputs, 2));
    WordsImage(op.outputs, 2, []);
  }

  lemma FirstOp(op: Op, rest: seq<bv8>)
    ensures var b := OpBytes(op) + rest;
            |b| >= 8 && OpLen(b) == |OpBytes(op)| && b[..OpLen(b)] == OpBytes(op) && b[OpLen(b)..] == rest
  {
    hide OpBytes, ByteOf;
    OpFields(op);
  }

  lemma RecordReads(op: Op, count: nat)
    requires OpOk(op, count)
    ensures |OpBytes(op)| >= 8
    ensures Admitted(OpBytes(op), count) == if Full(op) then Frame.Value(op) else Frame.Fail(Protocol)
  {
    hide OpBytes, ByteOf, OpOf, OpOk;
    OpFields(op);
    OpReads(op);
  }

  lemma OpsSplit(ops: seq<Op>, rest: seq<bv8>)
    requires ops != []
    ensures OpsBytes(ops) + rest == OpBytes(ops[0]) + (OpsBytes(ops[1..]) + rest)
  {
    hide OpBytes;
  }

  lemma {:induction false} OpsMeasured(ops: seq<Op>, rest: seq<bv8>)
    ensures OpsLen(OpsBytes(ops) + rest, |ops|) == |OpsBytes(ops)|
    decreases |ops|
  {
    hide OpBytes, OpLen;
    if ops != [] {
      OpsSplit(ops, rest);
      FirstOp(ops[0], OpsBytes(ops[1..]) + rest);
      OpsMeasured(ops[1..], rest);
    }
  }

  /** Reading op records back gives the ops, unless one of them has no operands. */
  lemma {:induction false} OpsRead(ops: seq<Op>, rest: seq<bv8>, count: nat)
    requires OpsOk(ops, count)
    ensures OpsLen(OpsBytes(ops) + rest, |ops|) >= 0
    ensures ReadOps(OpsBytes(ops) + rest, |ops|, count)
            == if Loadable(ops) then Frame.Value(ops) else Frame.Fail(Protocol)
    decreases |ops|
  {
    hide OpBytes, OpLen, Admitted, OpOk, Full;
    OpsMeasured(ops, rest);
    if ops != [] {
      OpsSplit(ops, rest);
      FirstOp(ops[0], OpsBytes(ops[1..]) + rest);
      OpsRead(ops[1..], rest, count);
      RecordReads(ops[0], count);
      assert ops == [ops[0]] + ops[1..];
      assert Loadable(ops) <==> Full(ops[0]) && Loadable(ops[1..]);
    }
  }

  /* ---- the blob ---- */

  lemma LeadFields(values: nat, ops: nat, ins: nat, outs: nat)
    ensures var b := Lead(values, ops, ins, outs);
            && b[0..4] == ToLe(MAGIC, 4) && b[4..6] == ToLe(VERSION, 2) && b[6..8] == ToLe(0, 2)
            && b[8..12] == ToLe(values, 4) && b[12..16] == ToLe(ops, 4)
            && b[16..20] == ToLe(ins, 4) && b[20..24] == ToLe(outs, 4)
  {
    hide ToLe;
  }

  lemma SealedFields(lead: seq<bv8>, body: seq<bv8>)
    requires |lead| == CRC_COVER
    ensures var d := Sealed(lead, body);
            && |d| == HEADER_SIZE + |body| && d[..CRC_COVER] == lead && d[HEADER_SIZE..] == body
            && d[24..28] == ToLe(Val32(Crc32.Crc(lead + body)), 4) && d[28..32] == ToLe(0, 4)
  {
    hide ToLe;
    hide Crc32.Crc;
  }

  lemma Inside(d: seq<bv8>, lead: seq<bv8>)
    requires |lead| == CRC_COVER <= |d| && d[..CRC_COVER] == lead
    ensures d[0..4] == lead[0..4] && d[4..6] == lead[4..6] && d[6..8] == lead[6..8]
    ensures d[8..12] == lead[8..12] && d[12..16] == lead[12..16]
    ensures d[16..20] == lead[16..20] && d[20..24] == lead[20..24]
  {
  }

  /** Every encoded header passes the checks and yields its counts. */
  lemma HeaderReads(values: nat, ops: nat, ins: nat, outs: nat, body: seq<bv8>)
    requires CountsOk(values, ops, ins, outs)
    ensures var d := Sealed(Lead(values, ops, ins, outs), body);
            && |d| == HEADER_SIZE + |body| && d[HEADER_SIZE..] == body && HeaderOk(d)
            && Le(d[8..12]) == values && Le(d[12..16]) == ops && Le(d[16..20]) == ins && Le(d[20..24]) == outs
  {
    hide ToLe, Le, Lead, Sealed;
    hide Crc32.Crc;
    var lead := Lead(values, ops, ins, outs);
    LeadFields(values, ops, ins, outs);
    SealedFields(lead, body);
    Inside(Sealed(lead, body), lead);
    Widths();
    LeToLe(MAGIC, 4);
    LeToLe(VERSION, 2);
    LeToLe(0, 2);
    LeToLe(0, 4);
    LeToLe(values, 4);
    LeToLe(ops, 4);
    LeToLe(ins, 4);
    LeToLe(outs, 4);
    LeToLe(Val32(Crc32.Crc(lead + body)), 4);
  }

  lemma IdsRead(ids: seq<U32>, rest: seq<bv8>)
    ensures IdsOf(Image(ids, 4) + rest, |ids|) == ids
  {
    hide ToLe, Le, Image, Words;
    Widths();
    WordsImage(ids, 4, rest);
  }

  /** Where the parts of a body start. */
  lemma BodyParts(p: Program)
    ensures var b := Body(p); var at := VALUE_SIZE * |p.values|;
            && at <= |b| && b[at..] == OpsBytes(p.ops) + IdsBytes(p)
            && OpsLen(b[at..], |p.ops|) == |OpsBytes(p.ops)|
            && |b| == at + |OpsBytes(p.ops)| + 4 * (|p.inputIds| + |p.outputIds|)
            && b[at + |OpsBytes(p.ops)|..] == IdsBytes(p)
            && b[at + |OpsBytes(p.ops)| + 4 * |p.inputIds|..] == Image(p.outputIds, 4) + []
  {
    hide OpsBytes, ValuesBytes, Image;
    OpsMeasured(p.ops, IdsBytes(p));
    ImageSize(p.inputIds, 4);
    ImageSize(p.outputIds, 4);
  }

  lemma BodyReads(p: Program)
    requires Built(p)
    ensures Contained(Body(p), |p.values|, |p.ops|, |p.inputIds| + |p.outputIds|)
    ensures ReadBody(Body(p), |p.values|, |p.ops|, |p.inputIds|, |p.outputIds|)
            == if Loadable(p.ops) then Frame.Value(p) else Frame.Fail(Protocol)
  {
    hide OpsBytes, ValuesBytes, Image, OpsLen, ReadOps, IdsOf, ValuesOf, ValueOk, OpOk, IdOk, Loadable;
    BodyParts(p);
    ValuesRead(p.values, OpsBytes(p.ops) + IdsBytes(p));
    OpsRead(p.ops, IdsBytes(p), |p.values|);
    IdsRead(p.inputIds, Image(p.outputIds, 4));
    IdsRead(p.outputIds, []);
  }

  /** Decoding an encoded program gives it back, exactly when every op has an input and
      an output; otherwise the blob is refused. */
  lemma RoundTrip(p: Program)
    requires Built(p)
    ensures Decode(Encoded(p)) == if Loadable(p.ops) then Frame.Value(p) else Frame.Fail(Protocol)
  {
    hide Body, HeaderOk, Sealed, Lead, Contained, ReadBody, Le, ValuesOk, OpsOk, IdsOk, Loadable;
    HeaderReads(|p.values|, |p.ops|, |p.inputIds|, |p.outputIds|, Body(p));
    BodyReads(p);
  }

  /* ---- what decodes is sound ---- */

  lemma {:induction false} ReadOpsSound(b: seq<bv8>, n: nat, count: nat)
    requires OpsLen(b, n) >= 0 && ReadOps(b, n, count).Value?
    ensures var ops := ReadOps(b, n, count).value; |ops| == n && Loadable(ops) && OpsOk(ops, count)
    decreases n
  {
    hide Admitted, OpOk;
    if n != 0 {
      var r := b[..OpLen(b)];
      ReadOpsSound(b[OpLen(b)..], n - 1, count);
      RecordFull(r, count);
      assert ReadOps(b, n, count) == Cons(Admitted(r, count), ReadOps(b[OpLen(b)..], n - 1, count));
    }
  }

  lemma RecordFull(r: seq<bv8>, count: nat)
    requires |r| >= 8 && Admitted(r, count).Value?
    ensures var op := Admitted(r, count).value; Full(op) && OpOk(op, count)
  {
    hide OpOk, Words, Val;
  }

  /** Whatever decodes satisfies all builder rules and survives another save and load. */
  lemma DecodeSound(d: seq<bv8>)
    requires Decode(d).Value?
    ensures var p := Decode(d).value;
            Built(p) && Loadable(p.ops) && Decode(Encoded(p)) == Frame.Value(p)
  {
    hide Le, OpsLen, ReadOps, IdsOf, ValuesOf, ValuesOk, OpsOk, IdsOk, Loadable, Encoded;
    var body := d[HEADER_SIZE..];
    var values, ops := Le(d[8..12]), Le(d[12..16]);
    ReadOpsSound(body[VALUE_SIZE * values..], ops, values);
    var p := Decode(d).value;
    assert Built(p) && Loadable(p.ops);
    hide Decode;
    RoundTrip(p);
  }

  /* ---- damage ---- */

  /** A cut through op records is noticed, or lies behind all of them. */
  lemma {:induction false} OpsCut(ops: seq<Op>, rest: seq<bv8>, k: nat)
    requires k <= |OpsBytes(ops) + rest|
    ensures OpsLen((OpsBytes(ops) + rest)[..k], |ops|) in {-1, |OpsBytes(ops)|}
    decreases |ops|
  {
    hide OpBytes, OpLen;
    if ops != [] {
      var b := OpsBytes(ops) + rest;
      var tail := OpsBytes(ops[1..]) + rest;
      OpsSplit(ops, rest);
      FirstOp(ops[0], tail);
      if k >= 8 {
        CutLen(b, k);
        if OpLen(b) <= k {
          assert b[..k][OpLen(b)..] == tail[..k - OpLen(b)];
          OpsCut(ops[1..], rest, k - OpLen(b));
        }
      }
    }
  }

  lemma CutLen(b: seq<bv8>, k: nat)
    requires 8 <= k <= |b|
    ensures OpLen(b[..k]) == OpLen(b)
  {
  }

  /** A truncated blob never decodes, whatever its checksum. */
  lemma TruncatedRejected(p: Program, k: nat)
    requires Built(p) && k < |Encoded(p)|
    ensures Decode(Encoded(p)[..k]).Fail?
  {
    hide OpsBytes, OpsLen, Sealed, Lead, HeaderOk, Le, ValuesOk, OpsOk, IdsOk, ReadBody, Body, IdsBytes;
    HeaderReads(|p.values|, |p.ops|, |p.inputIds|, |p.outputIds|, Body(p));
    var w := Encoded(p);
    if k >= HEADER_SIZE {
      HeaderKept(w, k);
      BodyParts(p);
      BodyCut(p, k - HEADER_SIZE);
    }
  }

  lemma HeaderKept(w: seq<bv8>, k: nat)
    requires HEADER_SIZE <= k <= |w|
    ensures w[..k][8..12] == w[8..12] && w[..k][12..16] == w[12..16] && w[..k][16..20] == w[16..20]
    ensures w[..k][20..24] == w[20..24] && w[..k][HEADER_SIZE..] == w[HEADER_SIZE..][..k - HEADER_SIZE]
  {
  }

  lemma BodyCut(p: Program, k: nat)
    requires k < |Body(p)|
    ensures !Contained(Body(p)[..k], |p.values|, |p.ops|, |p.inputIds| + |p.outputIds|)
  {
    hide OpsBytes, OpsLen, ValuesBytes, IdsBytes;
    var b, at := Body(p), VALUE_SIZE * |p.values|;
    BodyParts(p);
    if at <= k {
      assert b[..k][at..] == b[at..][..k - at];
      OpsCut(p.ops, IdsBytes(p), k - at);
    }
  }

  /** Inside one region: hashed header, checksum, reserved word, or body. */
  predicate BlobWindow(p: nat, k: nat, n: nat) {
    && k <= 4
    && (p + k <= 24 || (24 <= p && p + k <= 28) || (28 <= p && p + k <= 32) || (32 <= p && p + k <= n))
  }

  function HashedBlob(d: seq<bv8>): seq<bv8>
    requires |d| >= HEADER_SIZE
  {
    d[..CRC_COVER] + d[HEADER_SIZE..]
  }

  lemma HashedPieces(w: seq<bv8>, p: nat, k: nat)
    requires |w| >= HEADER_SIZE && p + k <= |w|
    ensures p + k <= 24 ==> HashedBlob(w) == w[..p] + w[p..p + k] + (w[p + k..24] + w[32..|w|])
    ensures 32 <= p ==> HashedBlob(w) == (w[0..24] + w[32..p]) + w[p..p + k] + w[p + k..|w|]
  {
  }

  /** Any change of at most four consecutive bytes in one region is noticed. */
  lemma CorruptionRejected(w: seq<bv8>, v: seq<bv8>, p: nat, k: nat)
    requires Decode(w).Value? && |v| == |w| && v != w
    requires p + k <= |w| && BlobWindow(p, k, |w|) && w[..p] == v[..p] && w[p + k..] == v[p + k..]
    ensures Decode(v).Fail?
  {
    hide ReadBody, Contained, Le;
    hide Crc32.Crc;
    Frame.WindowDiffers(w, v, p, k);
    if p + k <= 24 || 32 <= p {
      Frame.Outside(w, v, p, k, 24, 28);
      BodyCorrupted(w, v, p, k);
    } else {
      FieldCorrupted(w, v, p, k);
    }
  }

  lemma BodyCorrupted(w: seq<bv8>, v: seq<bv8>, p: nat, k: nat)
    requires |v| == |w| >= HEADER_SIZE && p + k <= |w| && k <= 4 && (p + k <= 24 || 32 <= p)
    requires w[..p] == v[..p] && w[p + k..] == v[p + k..] && w[p..p + k] != v[p..p + k]
    ensures Val32(Crc32.Crc(HashedBlob(w))) != Val32(Crc32.Crc(HashedBlob(v)))
  {
    hide Crc32.Crc;
    HashedPieces(w, p, k);
    HashedPieces(v, p, k);
    if p + k <= 24 {
      Frame.Outside(w, v, p, k, p + k, 24);
      Frame.Outside(w, v, p, k, 32, |w|);
      Crc32.CorruptionDetected(w[..p], w[p..p + k], v[p..p + k], w[p + k..24] + w[32..|w|]);
    } else {
      Frame.Outside(w, v, p, k, 0, 24);
      Frame.Outside(w, v, p, k, 32, p);
      Frame.Outside(w, v, p, k, p + k, |w|);
      Crc32.CorruptionDetected(w[0..24] + w[32..p], w[p..p + k], v[p..p + k], w[p + k..|w|]);
    }
    if Val32(Crc32.Crc(HashedBlob(w))) == Val32(Crc32.Crc(HashedBlob(v))) {
      Val32Injective(Crc32.Crc(HashedBlob(w)), Crc32.Crc(HashedBlob(v)));
    }
  }

  lemma FieldCorrupted(w: seq<bv8>, v: seq<bv8>, p: nat, k: nat)
    requires |v| == |w| >= HEADER_SIZE && HeaderOk(w)
    requires (24 <= p && p + k <= 28) || (28 <= p && p + k <= 32)
    requires w[..p] == v[..p] && w[p + k..] == v[p + k..] && w[p..p + k] != v[p..p + k]
    ensures !HeaderOk(v)
  {
    hide Le;
    hide Crc32.Crc;
    Frame.Outside(w, v, p, k, 0, 24);
    Frame.Outside(w, v, p, k, 32, |w|);
    assert HashedBlob(w) == w[0..24] + w[32..|w|] && HashedBlob(v) == v[0..24] + v[32..|v|];
    var lo := if p + k <= 28 then 24 else 28;
    Frame.FieldWindow(w, p, k, lo);
    Frame.FieldWindow(v, p, k, lo);
    if Le(w[lo..lo + 4]) == Le(v[lo..lo + 4]) {
      LeInjective(w[lo..lo + 4], v[lo..lo + 4]);
    }
  }
}
