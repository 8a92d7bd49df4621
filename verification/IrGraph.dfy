/** Graphs as IR programs and back (ir/ir_graph.c). Both kinds of program number values
    and ops alike, and the op kinds of both sides have the same numbers. */
module IrGraph {
  import opened Mem
  import opened IrCode
  import Ir
  import Net
  import Graph
  import Frame
  import Crc32
  import Tensor
  import IrRoundTrip

  const ANY: nat := 0
  const ACTIVATION: Byte := 0
  const INPUT: Byte := 1
  const PARAM: Byte := 2
  const OUTPUT: Byte := 4

  function KindOf(v: Net.Value): Byte {
    if v.isInput then INPUT else if v.isOutput then OUTPUT else if v.producer == 0 then PARAM else ACTIVATION
  }

  /** Every op kind of the graph is one that the IR knows. */
  predicate KindsOk(ops: seq<Net.Op>) {
    forall o :: 1 <= o < |ops| ==> ops[o].kind < Ir.OP_KINDS
  }

  predicate ValueMirrors(iv: Ir.Value, gv: Net.Value) {
    && gv.dtype < Tensor.DTYPE_COUNT && |gv.shape| <= Tensor.MAX_RANK && gv.align != 0
    && iv == NewValue(gv.dtype, gv.shape, gv.size, gv.align, KindOf(gv), ANY)
  }

  predicate OpMirrors(io: Ir.Op, go: Net.Op) {
    io.kind == go.kind && io.device == ANY && io.inputs == go.inputs && io.outputs == go.outputs
  }

  predicate Flag(v: Net.Value, input: bool) {
    if input then v.isInput else v.isOutput
  }

  /** The flagged ids below k, in order. */
  function Flagged(values: seq<Net.Value>, input: bool, k: nat): seq<nat>
    requires k <= |values|
  {
    if k <= 1 then []
    else Flagged(values, input, k - 1) + if Flag(values[k - 1], input) then [k - 1] else []
  }

  lemma {:induction false} FlaggedIff(values: seq<Net.Value>, input: bool, k: nat)
    requires k <= |values|
    ensures forall v :: v in Flagged(values, input, k) <==> 1 <= v < k && Flag(values[v], input)
    ensures |Flagged(values, input, k)| <= if k == 0 then 0 else k - 1
  {
    hide Flag;
    if k > 1 {
      FlaggedIff(values, input, k - 1);
    }
  }

  /** The first values and the first ops, in order. */
  ghost predicate ValuesMirror(vs: seq<Ir.Value>, values: seq<Net.Value>) {
    |vs| < |values| && forall v :: 0 <= v < |vs| ==> ValueMirrors(vs[v], values[v + 1])
  }

  ghost predicate OpsMirror(ios: seq<Ir.Op>, ops: seq<Net.Op>) {
    |ios| < |ops| && forall o :: 0 <= o < |ios| ==> OpMirrors(ios[o], ops[o + 1])
  }

  /** The program `pai_ir_from_graph` makes of a graph. */
  ghost predicate Mirrors(p: Ir.Program, n: Net.Net) {
    && |p.values| == |n.values| - 1 && ValuesMirror(p.values, n.values)
    && |p.ops| == |n.ops| - 1 && OpsMirror(p.ops, n.ops)
    && p.inputIds == Flagged(n.values, true, |n.values|)
    && p.outputIds == Flagged(n.values, false, |n.values|)
  }

  /* ---- graph to IR ---- */

  /** The ids of an op, through the value map. */
  method MapIds(ids: seq<nat>, valueMap: seq<nat>) returns (r: seq<nat>)
    requires forall i :: 0 <= i < |ids| ==> ids[i] < |valueMap|
    requires forall v :: 0 <= v < |valueMap| ==> valueMap[v] == v
    ensures r == ids
  {
    r := [];
    for i := 0 to |ids|
      invariant r == ids[..i]
    {
      r := r + [valueMap[ids[i]]];
    }
  }

  lemma GraphValueFits(n: Net.Net, v: nat)
    requires Net.NetOk(n) && Graph.Sized(n.values) && Net.IsValue(n, v)
    ensures Tensor.HasSize(n.values[v].dtype, n.values[v].shape) && n.values[v].align != 0 && IsPow2(n.values[v].align)
    ensures n.values[v].size == Tensor.Product(n.values[v].shape) * Tensor.DtypeSize(n.values[v].dtype)
  {
    hide Tensor.HasSize, Tensor.Product;
    assert Net.ValueOk(n, v);
  }

  /** An op of a graph is one that the IR builder accepts. */
  lemma GraphOpFits(n: Net.Net, o: nat)
    requires Net.NetOk(n) && Net.IsOp(n, o)
    ensures var op := n.ops[o];
            && |op.inputs| <= Ir.MAX_ARITY && |op.outputs| <= Ir.MAX_ARITY
            && Ir.IdsOk(op.inputs, |n.values| - 1) && Ir.IdsOk(op.outputs, |n.values| - 1)
            && Net.Distinct(op.outputs) && Ir.Apart(op.inputs, op.outputs)
            && (forall i :: 0 <= i < |op.inputs| ==> op.inputs[i] < 0x1_0000)
            && (forall i :: 0 <= i < |op.outputs| ==> op.outputs[i] < 0x1_0000)
  {
    assert Net.OpOk(n, o);
    var op := n.ops[o];
    assert forall i :: 0 <= i < |op.inputs| ==> op.inputs[i] in op.inputs;
    assert forall i :: 0 <= i < |op.outputs| ==> op.outputs[i] in op.outputs;
  }

  method AddValues(g: Graph.Graph, out: IrProgram) returns (valueMap: seq<nat>)
    requires g.Valid() && out.Valid() && out.Abs() == Ir.Empty
    modifies out`values
    ensures out.Valid() && |out.values| == |g.values| - 1 && ValuesMirror(out.values, g.values)
    ensures |valueMap| == |g.values| && forall v :: 0 <= v < |valueMap| ==> valueMap[v] == v
  {
    hide Net.NetOk, Net.EpochsOk, Tensor.HasSize, Tensor.Product, Ir.Built, Graph.Sized, NewValue;
    SizesOk(g.Abs());
    valueMap := [0];
    for v := 1 to |g.values|
      invariant out.Valid() && |out.values| == v - 1 && ValuesMirror(out.values, g.values)
      invariant |valueMap| == v && forall u :: 0 <= u < v ==> valueMap[u] == u
      modifies out`values
    {
      var gv := g.values[v];
      GraphValueFits(g.Abs(), v);
      var id := out.AddValue(gv.dtype, gv.shape, gv.align, KindOf(gv) as nat, ANY);
      assert id == v;
      valueMap := valueMap + [id];
    }
  }

  lemma SizesOk(n: Net.Net)
    requires Net.NetOk(n)
    ensures 1 <= |n.values| <= Ir.MAX_VALUES + 1 && 1 <= |n.ops| <= Ir.MAX_OPS + 1
  {
  }

  method AddOps(g: Graph.Graph, out: IrProgram, valueMap: seq<nat>) returns (st: Status)
    requires g.Valid() && out.Valid() && out.ops == [] && |out.values| == |g.values| - 1
    requires |valueMap| == |g.values| && forall v :: 0 <= v < |valueMap| ==> valueMap[v] == v
    modifies out`ops
    ensures out.Valid() && (st == Ok || st == Mismatch)
    ensures st == Ok <==> KindsOk(g.ops)
    ensures st == Ok ==> |out.ops| == |g.ops| - 1 && OpsMirror(out.ops, g.ops)
  {
    hide Net.NetOk, Net.EpochsOk, Ir.Built, Graph.Sized, Ir.Apart;
    SizesOk(g.Abs());
    for o := 1 to |g.ops|
      invariant out.Valid() && |out.ops| == o - 1 && OpsMirror(out.ops, g.ops)
      invariant forall k :: 1 <= k < o ==> g.ops[k].kind < Ir.OP_KINDS
      modifies out`ops
    {
      var go := g.ops[o];
      if go.kind >= Ir.OP_KINDS {
        return Mismatch;
      }
      GraphOpFits(g.Abs(), o);
      var inputs := MapIds(go.inputs, valueMap);
      var outputs := MapIds(go.outputs, valueMap);
      var id := out.AddOp(go.kind, ANY, inputs, outputs);
      assert id == o;
    }
    st := Ok;
  }

  /** `pai_ir_from_graph`: the NOMEM branches are never taken. */
  method FromGraph(g: Graph.Graph, out: IrProgram) returns (st: Status)
    requires g.Valid()
    modifies out
    ensures st == Ok <==> KindsOk(g.ops)
    ensures st == Ok ==> out.Valid() && Mirrors(out.Abs(), g.Abs())
    ensures st != Ok ==> st == Mismatch
  {
    hide Net.NetOk, Net.EpochsOk, Ir.Built, Graph.Sized, ValuesMirror, OpsMirror, KindsOk;
    SizesOk(g.Abs());
    out.Init();
    var valueMap := AddValues(g, out);
    st := AddOps(g, out, valueMap);
    if st != Ok {
      return;
    }
    for v := 1 to |g.values|
      invariant out.Valid() && |out.values| == |g.values| - 1
      invariant out.inputIds == Flagged(g.values, true, v) && out.outputIds == Flagged(g.values, false, v)
      modifies out`inputIds, out`outputIds
    {
      FlaggedIff(g.values, true, v);
      FlaggedIff(g.values, false, v);
      if g.values[v].isInput {
        out.SetInput(valueMap[v]);
      }
      if g.values[v].isOutput {
        out.SetOutput(valueMap[v]);
      }
    }
  }

  /* ---- IR to graph ---- */

  /** No value is an output of two ops. */
  ghost predicate SingleAssignment(ops: seq<Ir.Op>) {
    forall a, b :: 0 <= a < b < |ops| ==> Ir.Apart(ops[a].outputs, ops[b].outputs)
  }

  /** Value v of a graph built from a program; the producer follows from the ops. */
  predicate ValueRebuilt(gv: Net.Value, iv: Ir.Value) {
    && iv.rank <= Tensor.MAX_RANK && gv.dtype == iv.dtype && gv.shape == iv.shape[..iv.rank]
    && gv.size == iv.size && gv.align == iv.align
  }

  ghost predicate ValuesRebuilt(values: seq<Net.Value>, vs: seq<Ir.Value>) {
    1 <= |values| <= |vs| + 1 && forall v :: 1 <= v < |values| ==> ValueRebuilt(values[v], vs[v - 1])
  }

  ghost predicate OpsRebuilt(ops: seq<Net.Op>, ios: seq<Ir.Op>) {
    && 1 <= |ops| <= |ios| + 1
    && forall o :: 1 <= o < |ops| ==> ops[o] == Net.Op(ios[o - 1].kind, ios[o - 1].inputs, ios[o - 1].outputs, 0)
  }

  /** The flagged values are exactly those listed. */
  ghost predicate FlagsRebuilt(values: seq<Net.Value>, input: bool, ids: seq<nat>) {
    forall v :: 1 <= v < |values| ==> (Flag(values[v], input) <==> v in ids)
  }

  /** The graph `pai_ir_to_graph` makes of a program. */
  ghost predicate Rebuilds(n: Net.Net, p: Ir.Program) {
    && Net.NetOk(n) && n.values[0] == Net.NoValue && n.ops[0] == Net.NoOp
    && |n.values| == |p.values| + 1 && ValuesRebuilt(n.values, p.values)
    && |n.ops| == |p.ops| + 1 && OpsRebuilt(n.ops, p.ops)
    && FlagsRebuilt(n.values, true, p.inputIds) && FlagsRebuilt(n.values, false, p.outputIds)
  }

  ghost predicate Unflagged(values: seq<Net.Value>) {
    && |values| >= 1 && values[0] == Net.NoValue
    && forall v :: 1 <= v < |values| ==> !values[v].isInput && !values[v].isOutput
  }

  method RebuildValues(ir: IrProgram, out: Graph.Graph) returns (valueMap: seq<nat>)
    requires ir.Valid() && out.Valid() && out.Abs() == Net.EmptyNet && !out.sorted
    modifies out
    ensures out.Valid() && out.ops == [Net.NoOp] && !out.sorted
    ensures |out.values| == |ir.values| + 1 && ValuesRebuilt(out.values, ir.values) && Unflagged(out.values)
    ensures |valueMap| == |ir.values| + 1 && forall v :: 0 <= v < |valueMap| ==> valueMap[v] == v
  {
    hide Net.NetOk, Tensor.HasSize, Tensor.Product, Ir.Built, Graph.Sized, Ir.QuantOk;
    ProgramSizes(ir.Abs());
    valueMap := [0];
    for v := 1 to |ir.values| + 1
      invariant out.Valid() && out.ops == [Net.NoOp] && !out.sorted
      invariant |out.values| == v && ValuesRebuilt(out.values, ir.values) && Unflagged(out.values)
      invariant |valueMap| == v && forall u :: 0 <= u < v ==> valueMap[u] == u
    {
      var iv := ir.values[v - 1];
      ghost var was := out.values;
      ProgramValue(ir.Abs(), v - 1);
      var id := out.AddValue(iv.dtype, iv.shape[..iv.rank], iv.align);
      assert id == v;
      assert forall u :: 0 <= u < v ==> out.values[u] == was[u];
      valueMap := valueMap + [id];
    }
  }

  lemma ProgramSizes(p: Ir.Program)
    requires Ir.Built(p)
    ensures Ir.CountsOk(|p.values|, |p.ops|, |p.inputIds|, |p.outputIds|)
  {
  }

  lemma ProgramValue(p: Ir.Program, v: nat)
    requires Ir.Built(p) && v < |p.values|
    ensures Ir.ValueOk(p.values[v])
  {
  }

  /** The graph takes the next op exactly when no earlier one produces its outputs. */
  lemma CanAddIff(n: Net.Net, ios: seq<Ir.Op>)
    requires Net.NetOk(n) && OpsRebuilt(n.ops, ios) && |n.ops| <= |ios| <= Ir.MAX_OPS
    requires Ir.OpOk(ios[|n.ops| - 1], |n.values| - 1)
    ensures var op := ios[|n.ops| - 1];
            Graph.CanAddOp(n, op.inputs, op.outputs)
            <==> forall a :: 0 <= a < |n.ops| - 1 ==> Ir.Apart(ios[a].outputs, op.outputs)
  {
    var op := ios[|n.ops| - 1];
    if Graph.CanAddOp(n, op.inputs, op.outputs) {
      forall a | 0 <= a < |n.ops| - 1
        ensures Ir.Apart(ios[a].outputs, op.outputs)
      {
        Produced(n, ios, a);
      }
    } else {
      var j :| 0 <= j < |op.outputs| && n.values[op.outputs[j]].producer != 0;
      var u := op.outputs[j];
      assert Net.ValueOk(n, u);
      var o := n.values[u].producer;
      var i :| 0 <= i < |n.ops[o].outputs| && n.ops[o].outputs[i] == u;
      assert ios[o - 1].outputs[i] == op.outputs[j];
      assert !Ir.Apart(ios[o - 1].outputs, op.outputs);
    }
  }

  lemma Produced(n: Net.Net, ios: seq<Ir.Op>, a: nat)
    requires Net.NetOk(n) && OpsRebuilt(n.ops, ios) && a < |n.ops| - 1
    ensures forall i :: 0 <= i < |ios[a].outputs| ==>
              Net.IsValue(n, ios[a].outputs[i]) && n.values[ios[a].outputs[i]].producer == a + 1
  {
    assert Net.OpOk(n, a + 1);
    assert forall i :: 0 <= i < |ios[a].outputs| ==> ios[a].outputs[i] in n.ops[a + 1].outputs;
  }

  lemma OneMoreOp(n: Net.Net, ios: seq<Ir.Op>, vs: seq<Ir.Value>)
    requires 1 <= |n.ops| <= |ios| && OpsRebuilt(n.ops, ios)
    requires ValuesRebuilt(n.values, vs) && Unflagged(n.values)
    requires Ir.IdsOk(ios[|n.ops| - 1].outputs, |n.values| - 1)
    ensures var op := ios[|n.ops| - 1];
            && (forall i :: 0 <= i < |op.outputs| ==> op.outputs[i] < |n.values|)
            && var m := Graph.AddedOp(n, op.kind, op.inputs, op.outputs);
               OpsRebuilt(m.ops, ios) && ValuesRebuilt(m.values, vs) && Unflagged(m.values)
  {
  }

  method RebuildOps(ir: IrProgram, out: Graph.Graph, valueMap: seq<nat>) returns (st: Status)
    requires ir.Valid() && out.Valid() && out.ops == [Net.NoOp] && !out.sorted
    requires |out.values| == |ir.values| + 1 && ValuesRebuilt(out.values, ir.values) && Unflagged(out.values)
    requires |valueMap| == |ir.values| + 1 && forall v :: 0 <= v < |valueMap| ==> valueMap[v] == v
    modifies out
    ensures out.Valid() && (st == Ok || st == Mismatch)
    ensures st == Ok <==> SingleAssignment(ir.ops)
    ensures st == Ok ==> |out.values| == |ir.values| + 1 && ValuesRebuilt(out.values, ir.values)
    ensures st == Ok ==> |out.ops| == |ir.ops| + 1 && OpsRebuilt(out.ops, ir.ops) && out.ops[0] == Net.NoOp
    ensures st == Ok ==> Unflagged(out.values) && !out.sorted
  {
    hide Net.NetOk, Ir.Built, Graph.Sized, Graph.CanAddOp, Ir.Apart, ValueRebuilt, OpsRebuilt, ValuesRebuilt, Unflagged;
    ProgramSizes(ir.Abs());
    NoOpsYet(ir.ops);
    for o := 1 to |ir.ops| + 1
      invariant out.Valid() && |out.values| == |ir.values| + 1 && !out.sorted
      invariant ValuesRebuilt(out.values, ir.values) && Unflagged(out.values)
      invariant |out.ops| == o && OpsRebuilt(out.ops, ir.ops) && out.ops[0] == Net.NoOp
      invariant SingleAssignment(ir.ops[..o - 1])
    {
      var io := ir.ops[o - 1];
      ProgramOp(ir.Abs(), o - 1);
      CanAddIff(out.Abs(), ir.ops);
      OneMoreOp(out.Abs(), ir.ops, ir.values);
      var inputs := MapIds(io.inputs, valueMap);
      var outputs := MapIds(io.outputs, valueMap);
      var id := out.AddOp(io.kind, inputs, outputs);
      if id == 0 {
        return Mismatch;
      }
    }
    assert ir.ops[..|ir.ops|] == ir.ops;
    st := Ok;
  }

  lemma NoOpsYet(ios: seq<Ir.Op>)
    ensures OpsRebuilt([Net.NoOp], ios) && ios[..0] == []
  {
  }

  lemma ProgramOp(p: Ir.Program, o: nat)
    requires Ir.Built(p) && o < |p.ops|
    ensures Ir.OpOk(p.ops[o], |p.values|)
  {
  }

  /** One more id of one list is flagged; the other list is as before. */
  lemma FlagStep(was: seq<Net.Value>, now: seq<Net.Value>, input: bool, ids: seq<nat>, id: nat, other: seq<nat>)
    requires 1 <= id < |was| && FlagsRebuilt(was, input, ids) && FlagsRebuilt(was, !input, other)
    requires now == was[id := if input then was[id].(isInput := true) else was[id].(isOutput := true)]
    ensures FlagsRebuilt(now, input, ids + [id])
    ensures FlagsRebuilt(now, !input, other)
  {
    forall v | 1 <= v < |now|
      ensures Flag(now[v], input) <==> v in ids + [id]
    {
      assert Flag(was[v], input) <==> v in ids;
    }
    forall v | 1 <= v < |now|
      ensures Flag(now[v], !input) <==> v in other
    {
      assert Flag(was[v], !input) <==> v in other;
    }
  }

  lemma FlagsNone(values: seq<Net.Value>)
    requires Unflagged(values)
    ensures FlagsRebuilt(values, true, []) && FlagsRebuilt(values, false, [])
  {
  }

  /** Setting a flag changes nothing else. */
  lemma RebuiltStill(was: seq<Net.Value>, now: seq<Net.Value>, vs: seq<Ir.Value>, id: nat)
    requires 1 <= id < |was| && ValuesRebuilt(was, vs)
    requires now == was[id := was[id].(isInput := true)] || now == was[id := was[id].(isOutput := true)]
    ensures ValuesRebuilt(now, vs) && now[0] == was[0]
  {
    forall v | 1 <= v < |now|
      ensures ValueRebuilt(now[v], vs[v - 1])
    {
      assert ValueRebuilt(was[v], vs[v - 1]);
    }
  }

  method RebuildFlags(ir: IrProgram, out: Graph.Graph, valueMap: seq<nat>)
    requires ir.Valid() && out.Valid()
    requires |out.values| == |ir.values| + 1 && ValuesRebuilt(out.values, ir.values) && Unflagged(out.values)
    requires |valueMap| == |ir.values| + 1 && forall v :: 0 <= v < |valueMap| ==> valueMap[v] == v
    modifies out
    ensures out.Valid() && out.ops == old(out.ops) && out.sorted == old(out.sorted)
    ensures |out.values| == |ir.values| + 1 && ValuesRebuilt(out.values, ir.values) && out.values[0] == Net.NoValue
    ensures FlagsRebuilt(out.values, true, ir.inputIds) && FlagsRebuilt(out.values, false, ir.outputIds)
  {
    hide Net.NetOk, Ir.ValuesOk, Ir.OpsOk, Graph.Sized, FlagsRebuilt, ValueRebuilt, ValuesRebuilt;
    FlagsNone(out.values);
    assert ir.inputIds[..0] == [] && ir.outputIds[..0] == [];
    for i := 0 to |ir.inputIds|
      invariant out.Valid() && out.ops == old(out.ops) && out.sorted == old(out.sorted)
      invariant |out.values| == |ir.values| + 1 && ValuesRebuilt(out.values, ir.values) && out.values[0] == Net.NoValue
      invariant FlagsRebuilt(out.values, true, ir.inputIds[..i]) && FlagsRebuilt(out.values, false, [])
    {
      assert ir.inputIds[..i + 1] == ir.inputIds[..i] + [ir.inputIds[i]];
      ghost var was := out.values;
      out.SetInput(valueMap[ir.inputIds[i]]);
      FlagStep(was, out.values, true, ir.inputIds[..i], ir.inputIds[i], []);
      RebuiltStill(was, out.values, ir.values, ir.inputIds[i]);
    }
    assert ir.inputIds[..|ir.inputIds|] == ir.inputIds;
    for i := 0 to |ir.outputIds|
      invariant out.Valid() && out.ops == old(out.ops) && out.sorted == old(out.sorted)
      invariant |out.values| == |ir.values| + 1 && ValuesRebuilt(out.values, ir.values) && out.values[0] == Net.NoValue
      invariant FlagsRebuilt(out.values, true, ir.inputIds) && FlagsRebuilt(out.values, false, ir.outputIds[..i])
    {
      assert ir.outputIds[..i + 1] == ir.outputIds[..i] + [ir.outputIds[i]];
      ghost var was := out.values;
      out.SetOutput(valueMap[ir.outputIds[i]]);
      FlagStep(was, out.values, false, ir.outputIds[..i], ir.outputIds[i], ir.inputIds);
      RebuiltStill(was, out.values, ir.values, ir.outputIds[i]);
    }
    assert ir.outputIds[..|ir.outputIds|] == ir.outputIds;
  }

  /** `pai_ir_to_graph`: succeeds exactly for single-assignment programs; the NOMEM branch is never taken. */
  method ToGraph(ir: IrProgram, out: Graph.Graph) returns (st: Status)
    requires ir.Valid()
    modifies out
    ensures out.Valid()
    ensures st == Ok <==> SingleAssignment(ir.ops)
    ensures st == Ok ==> Rebuilds(out.Abs(), ir.Abs()) && !out.sorted
    ensures st != Ok ==> st == Mismatch
  {
    hide Net.NetOk, Ir.Built, Graph.Sized, FlagsRebuilt, ValuesRebuilt, OpsRebuilt, SingleAssignment;
    out.Init();
    var valueMap := RebuildValues(ir, out);
    st := RebuildOps(ir, out, valueMap);
    if st == Ok {
      RebuildFlags(ir, out, valueMap);
    }
  }

  /* ---- there and back ---- */

  /** Every op of the graph has an input and an output. */
  predicate OperandsFull(ops: seq<Net.Op>) {
    forall o :: 1 <= o < |ops| ==> ops[o].inputs != [] && ops[o].outputs != []
  }

  lemma MirrorLoadable(p: Ir.Program, n: Net.Net)
    requires Mirrors(p, n)
    ensures Ir.Loadable(p.ops) <==> OperandsFull(n.ops)
  {
    hide ValuesMirror;
    if Ir.Loadable(p.ops) {
      forall o | 1 <= o < |n.ops|
        ensures n.ops[o].inputs != [] && n.ops[o].outputs != []
      {
        assert OpMirrors(p.ops[o - 1], n.ops[o]);
        assert Ir.Full(p.ops[o - 1]);
      }
    }
    if OperandsFull(n.ops) {
      forall o | 0 <= o < |p.ops|
        ensures Ir.Full(p.ops[o])
      {
        assert OpMirrors(p.ops[o], n.ops[o + 1]);
      }
    }
  }

  /** The ops of a graph are single-assignment. */
  lemma MirrorSingle(p: Ir.Program, n: Net.Net)
    requires Mirrors(p, n) && Net.NetOk(n)
    ensures SingleAssignment(p.ops)
  {
    hide ValuesMirror;
    forall a, b | 0 <= a < b < |p.ops|
      ensures Ir.Apart(p.ops[a].outputs, p.ops[b].outputs)
    {
      assert OpMirrors(p.ops[a], n.ops[a + 1]) && OpMirrors(p.ops[b], n.ops[b + 1]);
      assert Net.OpOk(n, a + 1) && Net.OpOk(n, b + 1);
      forall i, k | 0 <= i < |p.ops[a].outputs| && 0 <= k < |p.ops[b].outputs|
        ensures p.ops[a].outputs[i] != p.ops[b].outputs[k]
      {
        assert p.ops[a].outputs[i] in n.ops[a + 1].outputs && p.ops[b].outputs[k] in n.ops[b + 1].outputs;
      }
    }
  }

  lemma SameOps(p: Ir.Program, n: Net.Net, m: Net.Net)
    requires Mirrors(p, n) && Rebuilds(m, p)
    ensures |m.ops| == |n.ops| && |m.values| == |n.values|
    ensures forall o :: Net.IsOp(n, o) ==> m.ops[o] == n.ops[o].(epoch := 0)
  {
    hide ValuesMirror, ValuesRebuilt;
    forall o | 1 <= o < |n.ops|
      ensures m.ops[o] == n.ops[o].(epoch := 0)
    {
      assert OpMirrors(p.ops[o - 1], n.ops[o]);
    }
  }

  lemma SameProducer(n: Net.Net, m: Net.Net, v: nat)
    requires Net.NetOk(n) && Net.NetOk(m) && |n.values| == |m.values| && |n.ops| == |m.ops| && Net.IsValue(n, v)
    requires forall o :: Net.IsOp(n, o) ==> m.ops[o] == n.ops[o].(epoch := 0)
    ensures n.values[v].producer == m.values[v].producer
  {
    assert Net.ValueOk(n, v) && Net.ValueOk(m, v);
    var a, b := n.values[v].producer, m.values[v].producer;
    if a != 0 {
      assert v in m.ops[a].outputs && Net.OpOk(m, a);
    }
    if b != 0 {
      assert v in n.ops[b].outputs && Net.OpOk(n, b);
    }
  }

  lemma SameFlags(p: Ir.Program, n: Net.Net, m: Net.Net, v: nat)
    requires Mirrors(p, n) && Rebuilds(m, p) && Net.IsValue(n, v)
    ensures v < |m.values| && n.values[v].isInput == m.values[v].isInput && n.values[v].isOutput == m.values[v].isOutput
  {
    hide ValuesMirror, ValuesRebuilt, OpsMirror, OpsRebuilt, Net.NetOk;
    FlaggedIff(n.values, true, |n.values|);
    FlaggedIff(n.values, false, |n.values|);
    assert Flag(m.values[v], true) <==> v in p.inputIds;
    assert Flag(m.values[v], false) <==> v in p.outputIds;
    assert Flag(n.values[v], true) <==> v in p.inputIds;
    assert Flag(n.values[v], false) <==> v in p.outputIds;
  }

  lemma SameShape(gv: Net.Value, iv: Ir.Value, hv: Net.Value)
    requires ValueMirrors(iv, gv) && ValueRebuilt(hv, iv)
    ensures hv.dtype == gv.dtype && hv.shape == gv.shape && hv.size == gv.size && hv.align == gv.align
  {
  }

  /** The same values and the same ops, which have no epochs yet. */
  ghost predicate Reloaded(n: Net.Net, m: Net.Net) {
    && |m.values| == |n.values| && (forall v :: Net.IsValue(n, v) ==> m.values[v] == n.values[v])
    && |m.ops| == |n.ops| && (forall o :: Net.IsOp(n, o) ==> m.ops[o] == n.ops[o].(epoch := 0))
  }

  /** A program made of a graph and turned back is that graph, epochs excepted. */
  lemma ThereAndBack(n: Net.Net, p: Ir.Program, m: Net.Net)
    requires Net.NetOk(n) && Mirrors(p, n) && Rebuilds(m, p)
    ensures Reloaded(n, m)
  {
    SameOps(p, n, m);
    forall v | 1 <= v < |n.values|
      ensures m.values[v] == n.values[v]
    {
      hide Net.NetOk;
      SameFlags(p, n, m, v);
      SameProducer(n, m, v);
      assert ValueMirrors(p.values[v - 1], n.values[v]) && ValueRebuilt(m.values[v], p.values[v - 1]);
      SameShape(n.values[v], p.values[v - 1], m.values[v]);
    }
  }

  /** Save a graph as a blob and load it again. Everything comes back except the epochs;
      it fails exactly if the IR lacks an op kind, some op has no input or no output, or
      the buffer is too small. */
  method SaveAndLoad(g: Graph.Graph, table: Crc32.Table, buf: array<bv8>) returns (st: Status, h: Graph.Graph)
    requires g.Valid() && table.Valid()
    modifies table, table.entries, buf
    ensures g.Abs() == old(g.Abs()) && h.Valid()
    ensures st == Ok <==> KindsOk(g.ops) && OperandsFull(g.ops) && BlobSize(g.Abs()) <= buf.Length
    ensures st == Ok ==> Reloaded(g.Abs(), h.Abs()) && !h.sorted
  {
    hide Net.NetOk, Net.EpochsOk, Ir.Built, Graph.Sized, Mirrors, Rebuilds, KindsOk, OperandsFull, SingleAssignment;
    hide Ir.Decode, Ir.Encoded, Ir.Loadable, BlobSize, Reloaded;
    h := new Graph.Graph();
    var prog := new IrProgram();
    st := FromGraph(g, prog);
    if st != Ok {
      return;
    }
    MirrorSingle(prog.Abs(), g.Abs());
    MirrorLoadable(prog.Abs(), g.Abs());
    MirrorBlob(prog.Abs(), g.Abs());
    var n;
    st, n := prog.Encode(buf, buf.Length, table);
    if st != Ok {
      return;
    }
    IrRoundTrip.RoundTrip(prog.Abs());
    var again := new IrProgram();
    st := again.Decode(buf[..n], table);
    if st != Ok {
      return;
    }
    st := ToGraph(again, h);
    ThereAndBack(g.Abs(), prog.Abs(), h.Abs());
  }

  /** The bytes a graph takes as a blob. */
  function BlobSize(n: Net.Net): nat {
    Ir.HEADER_SIZE + Ir.VALUE_SIZE * (if n.values == [] then 0 else |n.values| - 1) + OpsSize(n.ops, |n.ops|)
    + 4 * (|Flagged(n.values, true, |n.values|)| + |Flagged(n.values, false, |n.values|)|)
  }

  function OpsSize(ops: seq<Net.Op>, k: nat): nat
    requires k <= |ops|
  {
    if k <= 1 then 0 else OpsSize(ops, k - 1) + 8 + 2 * (|ops[k - 1].inputs| + |ops[k - 1].outputs|)
  }

  lemma MirrorBlob(p: Ir.Program, n: Net.Net)
    requires Mirrors(p, n)
    ensures |Ir.Encoded(p)| == BlobSize(n)
  {
    hide ValuesMirror, OpsMirror, Ir.Encoded;
    EncodedLength(p);
    MirrorOpsSize(p.ops, n.ops, |n.ops|);
    assert p.ops[..|p.ops|] == p.ops;
  }

  lemma {:induction false} MirrorOpsSize(ios: seq<Ir.Op>, ops: seq<Net.Op>, k: nat)
    requires |ios| == |ops| - 1 && OpsMirror(ios, ops) && 1 <= k <= |ops|
    ensures |Ir.OpsBytes(ios[..k - 1])| == OpsSize(ops, k)
  {
    hide Ir.OpBytes, Ir.OpsBytes;
    if k == 1 {
      NoneYet();
      assert ios[..0] == [];
    } else {
      MirrorOpsSize(ios, ops, k - 1);
      OpsStep(ios, k - 2);
      assert OpMirrors(ios[k - 2], ops[k - 1]);
    }
  }
}
