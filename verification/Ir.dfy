/** Prospero IR programs and their flat serialization (ir/ir.h, ir/ir.c). Values and ops
    are numbered from 1; the one with id k stands at index k - 1. */
module Ir {
  import opened Mem
  import opened Bytes
  import Frame
  import Crc32
  import Net
  import Tensor

  const MAX_VALUES: nat := 1024
  const MAX_OPS: nat := 1024
  const MAX_ARITY: nat := 16

  const OP_KINDS: nat := 18
  const VALUE_KINDS: nat := 5
  const DEVICES: nat := 3
  const REPRS: nat := 4
  const BLOCKS: nat := 3
  const BLOCK_GROUP: nat := 2

  const MAGIC: nat := 0x5249_5041
  const VERSION: nat := 1
  const HEADER_SIZE: nat := 32
  const VALUE_SIZE: nat := 76
  const CRC_COVER: nat := 24

  type U16 = x: nat | x < 0x1_0000

  /** `uint64_t shape[PAI_TENSOR_MAX_RANK]`. */
  type Shape = s: seq<U64> | |s| == 6 witness [0, 0, 0, 0, 0, 0]

  /** The used part of `uint16_t inputs[PAI_IR_MAX_ARITY]`. */
  type Operands = s: seq<U16> | |s| <= 16

  datatype Quant = Quant(present: Byte, bitWidth: Byte, scaleRepr: Byte, zeroPointRepr: Byte, isSigned: Byte,
                         block: Byte, group: U16)

  datatype Value = Value(dtype: Byte, rank: Byte, kind: Byte, device: Byte, shape: Shape, size: U64, align: U64,
                         quant: Quant)

  datatype Op = Op(kind: Byte, device: Byte, inputs: Operands, outputs: Operands)

  datatype Program = Program(values: seq<Value>, ops: seq<Op>, inputIds: seq<U32>, outputIds: seq<U32>)

  const Unquantized := Quant(0, 0, 0, 0, 0, 0, 0)
  const Empty := Program([], [], [], [])

  /* ---- what the builders keep ---- */

  ghost predicate QuantOk(q: Quant) {
    q.present != 0 ==>
      && 1 <= q.bitWidth <= 64 && q.scaleRepr < REPRS && q.zeroPointRepr < REPRS && q.block < BLOCKS
      && (q.block == BLOCK_GROUP ==> q.group != 0)
  }

  ghost predicate ValueOk(v: Value) {
    && v.dtype < Tensor.DTYPE_COUNT && 1 <= v.rank <= Tensor.MAX_RANK && v.kind < VALUE_KINDS && v.device < DEVICES
    && QuantOk(v.quant)
    && Tensor.SizeOk(v.dtype, v.shape[..v.rank], v.size)
    && IsPow2(v.align)
  }

  predicate IdOk(id: nat, count: nat) {
    1 <= id <= count
  }

  ghost predicate IdsOk(ids: seq<nat>, count: nat) {
    forall i :: 0 <= i < |ids| ==> IdOk(ids[i], count)
  }

  ghost predicate Apart(a: seq<nat>, b: seq<nat>) {
    forall i, k :: 0 <= i < |a| && 0 <= k < |b| ==> a[i] != b[k]
  }

  ghost predicate OpOk(op: Op, count: nat) {
    && op.kind < OP_KINDS && op.device < DEVICES
    && IdsOk(op.inputs, count) && IdsOk(op.outputs, count)
    && Net.Distinct(op.outputs) && Apart(op.inputs, op.outputs)
  }

  ghost predicate ValuesOk(vs: seq<Value>) {
    forall v :: 0 <= v < |vs| ==> ValueOk(vs[v])
  }

  ghost predicate OpsOk(ops: seq<Op>, count: nat) {
    forall o :: 0 <= o < |ops| ==> OpOk(ops[o], count)
  }

  predicate CountsOk(values: nat, ops: nat, ins: nat, outs: nat) {
    values <= MAX_VALUES && ops <= MAX_OPS && ins <= MAX_VALUES && outs <= MAX_VALUES
  }

  ghost predicate Built(p: Program) {
    && CountsOk(|p.values|, |p.ops|, |p.inputIds|, |p.outputIds|)
    && ValuesOk(p.values) && OpsOk(p.ops, |p.values|)
    && IdsOk(p.inputIds, |p.values|) && IdsOk(p.outputIds, |p.values|)
  }

  /** The builder takes ops without operands; the decoder does not. */
  predicate Full(op: Op) {
    op.inputs != [] && op.outputs != []
  }

  ghost predicate Loadable(ops: seq<Op>) {
    forall o :: 0 <= o < |ops| ==> Full(ops[o])
  }

  /* ---- the wire image ---- */

  function QuantBytes(q: Quant): (b: seq<bv8>)
    ensures |b| == 6
  {
    [ByteOf(q.present), ByteOf(q.bitWidth), ByteOf(q.scaleRepr), ByteOf(q.zeroPointRepr), ByteOf(q.isSigned),
     ByteOf(q.block)]
  }

  function ValueBytes(v: Value): (b: seq<bv8>)
    ensures |b| == VALUE_SIZE
  {
    ImageSize(v.shape, 8);
    [ByteOf(v.dtype), ByteOf(v.rank), ByteOf(v.kind), ByteOf(v.device)] + QuantBytes(v.quant) + ToLe(v.quant.group, 2)
    + ToLe(v.align, 8) + ToLe(v.size, 8) + Image(v.shape, 8)
  }

  function OpSize(inputs: nat, outputs: nat): nat {
    8 + 2 * (inputs + outputs)
  }

  function OpBytes(op: Op): (b: seq<bv8>)
    ensures |b| == OpSize(|op.inputs|, |op.outputs|)
  {
    ImageSize(op.inputs, 2);
    ImageSize(op.outputs, 2);
    [ByteOf(op.kind), ByteOf(op.device), ByteOf(|op.inputs|), ByteOf(|op.outputs|)] + ToLe(0, 2) + ToLe(0, 2)
    + Image(op.inputs, 2) + Image(op.outputs, 2)
  }

  function ValuesBytes(vs: seq<Value>): (b: seq<bv8>)
    ensures |b| == VALUE_SIZE * |vs|
  {
    if vs == [] then [] else ValueBytes(vs[0]) + ValuesBytes(vs[1..])
  }

  function OpsBytes(ops: seq<Op>): seq<bv8> {
    if ops == [] then [] else OpBytes(ops[0]) + OpsBytes(ops[1..])
  }

  function Lead(values: nat, ops: nat, ins: nat, outs: nat): (b: seq<bv8>)
    ensures |b| == CRC_COVER
  {
    ToLe(MAGIC, 4) + ToLe(VERSION, 2) + ToLe(0, 2) + ToLe(values, 4) + ToLe(ops, 4) + ToLe(ins, 4) + ToLe(outs, 4)
  }

  function LeadOf(p: Program): (b: seq<bv8>)
    ensures |b| == CRC_COVER
  {
    Lead(|p.values|, |p.ops|, |p.inputIds|, |p.outputIds|)
  }

  function IdsBytes(p: Program): (b: seq<bv8>)
    ensures |b| == 4 * (|p.inputIds| + |p.outputIds|)
  {
    ImageSize(p.inputIds, 4);
    ImageSize(p.outputIds, 4);
    Image(p.inputIds, 4) + Image(p.outputIds, 4)
  }

  function Body(p: Program): seq<bv8> {
    ValuesBytes(p.values) + (OpsBytes(p.ops) + IdsBytes(p))
  }

  function Sealed(lead: seq<bv8>, body: seq<bv8>): seq<bv8> {
    lead + ToLe(Val32(Crc32.Crc(lead + body)), 4) + ToLe(0, 4) + body
  }

  /** The blob `pai_ir_encode` writes. */
  function Encoded(p: Program): seq<bv8> {
    Sealed(LeadOf(p), Body(p))
  }

  /* ---- reading ---- */

  function QuantOf(r: seq<bv8>): Quant
    requires |r| == 8
  {
    LeBound(r[6..8]);
    Widths();
    Quant(Val(r[0]), Val(r[1]), Val(r[2]), Val(r[3]), Val(r[4]), Val(r[5]), Le(r[6..8]))
  }

  function ValueOf(r: seq<bv8>): Value
    requires |r| == VALUE_SIZE
  {
    LeBound(r[12..20]);
    LeBound(r[20..28]);
    WordsBound(r[28..], 8, 6);
    Widths();
    Value(Val(r[0]), Val(r[1]), Val(r[2]), Val(r[3]), Words(r[28..], 8, 6), Le(r[20..28]), Le(r[12..20]),
          QuantOf(r[4..12]))
  }

  function ValuesOf(b: seq<bv8>, n: nat): (vs: seq<Value>)
    requires VALUE_SIZE * n <= |b|
    ensures |vs| == n
  {
    if n == 0 then [] else [ValueOf(b[..VALUE_SIZE])] + ValuesOf(b[VALUE_SIZE..], n - 1)
  }

  /** The length of the op record that starts b. */
  function OpLen(b: seq<bv8>): nat
    requires |b| >= 8
  {
    OpSize(Val(b[2]), Val(b[3]))
  }

  /** The length of n op records, or -1 if b ends within them. */
  function OpsLen(b: seq<bv8>, n: nat): (k: int)
    ensures -1 <= k <= |b|
    decreases n
  {
    if n == 0 then 0
    else if |b| < 8 || OpLen(b) > |b| then -1
    else
      var k := OpsLen(b[OpLen(b)..], n - 1);
      if k < 0 then -1 else OpLen(b) + k
  }

  function OpOf(r: seq<bv8>): Op
    requires |r| >= 8 && Val(r[2]) <= MAX_ARITY && Val(r[3]) <= MAX_ARITY
  {
    var ni, no := Val(r[2]), Val(r[3]);
    WordsBound(Behind(r, 8), 2, ni);
    WordsBound(Behind(r, 8 + 2 * ni), 2, no);
    Widths();
    Op(Val(r[0]), Val(r[1]), Words(Behind(r, 8), 2, ni), Words(Behind(r, 8 + 2 * ni), 2, no))
  }

  ghost predicate RecordOk(r: seq<bv8>, count: nat)
    requires |r| >= 8
  {
    1 <= Val(r[2]) <= MAX_ARITY && 1 <= Val(r[3]) <= MAX_ARITY && OpOk(OpOf(r), count)
  }

  ghost function Admitted(r: seq<bv8>, count: nat): Frame.Result<Op>
    requires |r| >= 8
  {
    if RecordOk(r, count) then Frame.Value(OpOf(r)) else Frame.Fail(Protocol)
  }

  function Cons<T>(head: Frame.Result<T>, tail: Frame.Result<seq<T>>): Frame.Result<seq<T>> {
    if head.Fail? then Frame.Fail(head.error)
    else if tail.Fail? then Frame.Fail(tail.error)
    else Frame.Value([head.value] + tail.value)
  }

  ghost function ReadOps(b: seq<bv8>, n: nat, count: nat): Frame.Result<seq<Op>>
    requires OpsLen(b, n) >= 0
    decreases n
  {
    if n == 0 then Frame.Value([])
    else Cons(Admitted(b[..OpLen(b)], count), ReadOps(b[OpLen(b)..], n - 1, count))
  }

  predicate HeaderOk(d: seq<bv8>)
    requires |d| >= HEADER_SIZE
  {
    && Le(d[0..4]) == MAGIC && Le(d[4..6]) == VERSION && Le(d[6..8]) == 0 && Le(d[28..32]) == 0
    && CountsOk(Le(d[8..12]), Le(d[12..16]), Le(d[16..20]), Le(d[20..24]))
    && Val32(Crc32.Crc(d[..CRC_COVER] + d[HEADER_SIZE..])) == Le(d[24..28])
  }

  /** The records and id lists lie inside the body. */
  predicate Contained(body: seq<bv8>, values: nat, ops: nat, ids: nat) {
    && VALUE_SIZE * values <= |body|
    && OpsLen(body[VALUE_SIZE * values..], ops) >= 0
    && VALUE_SIZE * values + OpsLen(body[VALUE_SIZE * values..], ops) + 4 * ids <= |body|
  }

  function IdsOf(b: seq<bv8>, n: nat): (s: seq<U32>)
    ensures |s| == n
  {
    WordsBound(b, 4, n);
    Widths();
    Words(b, 4, n)
  }

  /** The program in a body that contains all of it. */
  ghost function ReadBody(body: seq<bv8>, values: nat, ops: nat, ins: nat, outs: nat): Frame.Result<Program>
    requires Contained(body, values, ops, ins + outs)
  {
    var at := VALUE_SIZE * values;
    var end := at + OpsLen(body[at..], ops);
    var vs := ValuesOf(body, values);
    var inIds, outIds := IdsOf(body[end..], ins), IdsOf(body[end + 4 * ins..], outs);
    match ReadOps(body[at..], ops, values)
    case Fail(e) => Frame.Fail(e)
    case Value(os) =>
      if ValuesOk(vs) && IdsOk(inIds, values) && IdsOk(outIds, values)
      then Frame.Value(Program(vs, os, inIds, outIds)) else Frame.Fail(Protocol)
  }

  /** `pai_ir_decode`. */
  ghost function Decode(d: seq<bv8>): Frame.Result<Program> {
    if |d| < HEADER_SIZE then Frame.Fail(InvalidArg)
    else if !HeaderOk(d) then Frame.Fail(Protocol)
    else
      var body := d[HEADER_SIZE..];
      var nv, no, ni, nq := Le(d[8..12]), Le(d[12..16]), Le(d[16..20]), Le(d[20..24]);
      if !Contained(body, nv, no, ni + nq) then Frame.Fail(Protocol) else ReadBody(body, nv, no, ni, nq)
  }
}
