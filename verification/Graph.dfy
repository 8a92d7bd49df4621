/** The mutable compute graph of graph/graph.c. */
module Graph {
  import opened Mem
  import opened Net
  import opened TopoSort
  import opened Lifetimes
  import opened Planner
  import opened PlannerTheorems
  import opened PlannerBuild
  import Tensor

  const DEFAULT_ALIGN: U64 := 16

  /** `pai_graph_mem_plan_t`; offsets are indexed by value id. */
  datatype GraphPlan = GraphPlan(offsets: seq<U64>, regionBytes: U64, naiveBytes: U64, peakLive: U64)

  /** The arguments `pai_graph_add_op` accepts. */
  ghost predicate CanAddOp(n: Net, inputs: seq<nat>, outputs: seq<nat>) {
    && |inputs| <= MAX_ARITY && |outputs| <= MAX_ARITY
    && NumOps(n) < MAX_OPS
    && (forall i :: 0 <= i < |inputs| ==> IsValue(n, inputs[i]))
    && (forall i :: 0 <= i < |outputs| ==> IsValue(n, outputs[i]) && n.values[outputs[i]].producer == 0)
    && Distinct(outputs)
    && (forall i, k :: 0 <= i < |inputs| && 0 <= k < |outputs| ==> inputs[i] != outputs[k])
  }

  /** The first k values of outs now name op id as their producer. */
  function MarkProduced(values: seq<Value>, outs: seq<nat>, id: nat): (r: seq<Value>)
    requires forall i :: 0 <= i < |outs| ==> outs[i] < |values|
    ensures |r| == |values|
    ensures forall v :: 0 <= v < |values| ==>
              r[v] == if v in outs then values[v].(producer := id) else values[v]
  {
    if outs == [] then values
    else
      var k := |outs| - 1;
      var m := MarkProduced(values, outs[..k], id);
      assert forall u :: u in outs <==> u in outs[..k] || u == outs[k];
      m[outs[k] := m[outs[k]].(producer := id)]
  }

  ghost function AddedOp(n: Net, kind: nat, inputs: seq<nat>, outputs: seq<nat>): Net
    requires forall i :: 0 <= i < |outputs| ==> outputs[i] < |n.values|
  {
    Net(MarkProduced(n.values, outputs, |n.ops|), n.ops + [Op(kind, inputs, outputs, 0)])
  }

  /** Adding an accepted op keeps every value single-assignment. */
  lemma AddedOpOk(n: Net, kind: nat, inputs: seq<nat>, outputs: seq<nat>)
    requires NetOk(n) && CanAddOp(n, inputs, outputs)
    ensures NetOk(AddedOp(n, kind, inputs, outputs))
  {
    var m := AddedOp(n, kind, inputs, outputs);
    forall o | IsOp(m, o)
      ensures OpOk(m, o)
    {
      if o < |n.ops| {
        assert OpOk(n, o);
        forall u | u in n.ops[o].outputs
          ensures m.values[u].producer == o
        {
          assert u !in outputs;
        }
      } else {
        forall u | u in inputs
          ensures m.values[u].producer != o
        {
          assert ValueOk(n, u);
        }
      }
    }
    forall v | IsValue(m, v)
      ensures ValueOk(m, v)
    {
      assert ValueOk(n, v);
    }
  }

  /** Same ids, producers and operands, up to value flags and fresh values. */
  lemma AddedValueOk(n: Net, value: Value)
    requires NetOk(n) && |n.values| <= MAX_VALUES
    requires value.size > 0 && IsPow2(value.align) && value.producer == 0
    ensures var m := n.(values := n.values + [value]);
            NetOk(m) && (EpochsOk(n) ==> EpochsOk(m))
  {
    var m := n.(values := n.values + [value]);
    forall o | IsOp(m, o)
      ensures OpOk(m, o)
    {
      assert OpOk(n, o);
    }
    forall v | IsValue(m, v)
      ensures ValueOk(m, v)
    {
      assert v < |n.values| ==> ValueOk(n, v);
    }
    forall p, c | Edge(m, p, c)
      ensures Edge(n, p, c)
    {
      assert OpOk(n, c);
    }
  }

  lemma FlaggedOk(n: Net, m: Net)
    requires NetOk(n) && n.ops == m.ops && |n.values| == |m.values|
    requires forall v :: 0 <= v < |n.values| ==>
               m.values[v] == n.values[v].(isInput := m.values[v].isInput, isOutput := m.values[v].isOutput)
    ensures NetOk(m) && (EpochsOk(n) ==> EpochsOk(m))
  {
    forall o | IsOp(m, o)
      ensures OpOk(m, o)
    {
      assert OpOk(n, o);
    }
    forall v | IsValue(m, v)
      ensures ValueOk(m, v)
    {
      assert ValueOk(n, v);
    }
    forall p, c | Edge(m, p, c)
      ensures Edge(n, p, c)
    {
      var u :| u in m.ops[c].inputs && u < |m.values| && m.values[u].producer == p;
      assert n.values[u].producer == p;
    }
  }

  ghost predicate SameButEpochs(a: seq<Op>, b: seq<Op>) {
    |a| == |b| && forall o :: 0 <= o < |a| ==> b[o] == a[o].(epoch := b[o].epoch)
  }

  /** Changing epochs changes neither well-formedness nor the dependencies. */
  lemma SameButEpochsOk(n: Net, ops: seq<Op>)
    requires NetOk(n) && SameButEpochs(n.ops, ops)
    ensures var m := n.(ops := ops);
            NetOk(m) && (Acyclic(m) ==> Acyclic(n))
  {
    var m := n.(ops := ops);
    forall o | IsOp(m, o)
      ensures OpOk(m, o)
    {
      assert OpOk(n, o);
    }
    forall v | IsValue(m, v)
      ensures ValueOk(m, v)
    {
      assert ValueOk(n, v);
    }
    if Acyclic(m) {
      forall path
        ensures !IsCycle(n, path)
      {
        SameEdges(n, ops);
        if IsCycle(n, path) {
          assert forall i :: 0 <= i < |path| - 1 ==> EdgeAt(n, path, i) ==> EdgeAt(m, path, i);
          assert IsCycle(m, path);
        }
      }
    }
  }

  lemma SameEdges(n: Net, ops: seq<Op>)
    requires SameButEpochs(n.ops, ops)
    ensures forall p, c :: Edge(n, p, c) ==> Edge(n.(ops := ops), p, c)
  {
    var m := n.(ops := ops);
    forall p, c | Edge(n, p, c)
      ensures Edge(m, p, c)
    {
      var u :| u in n.ops[c].inputs && u < |n.values| && n.values[u].producer == p;
      assert u in m.ops[c].inputs;
    }
  }

  /** Every size is the byte size of its shape. */
  ghost predicate Sized(values: seq<Value>) {
    forall v :: 1 <= v < |values| ==> Tensor.SizeOk(values[v].dtype, values[v].shape, values[v].size)
  }

  lemma NetOkSizes(n: Net)
    requires NetOk(n)
    ensures |n.ops| >= 1 && |n.values| >= 1
  {
  }

  class Graph {
    var values: seq<Value>
    var ops: seq<Op>
    var sorted: bool

    ghost function Abs(): Net
      reads this
    {
      Net(values, ops)
    }

    ghost predicate Valid()
      reads this
    {
      NetOk(Abs()) && Sized(values) && (sorted ==> EpochsOk(Abs()))
    }

    constructor ()
      ensures Valid() && Abs() == EmptyNet && !sorted
    {
      values, ops, sorted := [NoValue], [NoOp], false;
    }

    /** `pai_graph_init`. */
    method Init()
      modifies this
      ensures Valid() && Abs() == EmptyNet && !sorted
    {
      values, ops, sorted := [NoValue], [NoOp], false;
    }

    /** `pai_graph_add_value`: a fresh id, or 0. */
    method AddValue(dtype: nat, shape: seq<U64>, align: U64) returns (id: nat)
      requires Valid()
      modifies this
      ensures Valid() && ops == old(ops) && sorted == old(sorted)
      ensures id != 0 <==> Tensor.HasSize(dtype, shape) && |old(values)| <= MAX_VALUES
                           && (align == 0 || IsPow2(align))
      ensures id == 0 ==> values == old(values)
      ensures id != 0 ==>
                && id == |old(values)| && |values| == id + 1 && old(values) == values[..id]
                && values[id].dtype == dtype && values[id].shape == shape && values[id].producer == 0
                && values[id].size == Tensor.Product(shape) * Tensor.DtypeSize(dtype)
                && values[id].align == (if align != 0 then align else DEFAULT_ALIGN)
                && !values[id].isInput && !values[id].isOutput
    {
      if |shape| == 0 || |shape| > MAX_RANK || |values| - 1 >= MAX_VALUES || (align != 0 && !IsPow2(align)) {
        return 0;
      }
      var ok, bytes := Tensor.ContiguousSize(dtype, shape);
      if !ok {
        return 0;
      }
      id := |values|;
      ghost var n := Abs();
      var value := Value(dtype, shape, bytes, if align != 0 then align else DEFAULT_ALIGN, 0, false, false);
      values := values + [value];
      AddedValueOk(n, value);
    }

    /** The id, single-assignment, duplicate and self-consumption checks of `pai_graph_add_op`. */
    method CheckOperands(inputs: seq<nat>, outputs: seq<nat>) returns (ok: bool)
      requires Valid()
      ensures ok <==>
                && (forall i :: 0 <= i < |inputs| ==> IsValue(Abs(), inputs[i]))
                && (forall i :: 0 <= i < |outputs| ==> IsValue(Abs(), outputs[i])
                                                        && values[outputs[i]].producer == 0)
                && Distinct(outputs)
                && (forall i, k :: 0 <= i < |inputs| && 0 <= k < |outputs| ==> inputs[i] != outputs[k])
    {
      for i := 0 to |inputs|
        invariant forall j :: 0 <= j < i ==> IsValue(Abs(), inputs[j])
      {
        if inputs[i] == 0 || inputs[i] > |values| - 1 {
          return false;
        }
      }
      for i := 0 to |outputs|
        invariant forall j :: 0 <= j < i ==> IsValue(Abs(), outputs[j]) && values[outputs[j]].producer == 0
        invariant forall j, k :: 0 <= j < k < i ==> outputs[j] != outputs[k]
      {
        if outputs[i] == 0 || outputs[i] > |values| - 1 || values[outputs[i]].producer != 0 {
          return false;
        }
        for k := 0 to i
          invariant forall j :: 0 <= j < k ==> outputs[j] != outputs[i]
        {
          if outputs[k] == outputs[i] {
            return false;
          }
        }
      }
      for i := 0 to |inputs|
        invariant forall j, k :: 0 <= j < i && 0 <= k < |outputs| ==> inputs[j] != outputs[k]
      {
        for k := 0 to |outputs|
          invariant forall l :: 0 <= l < k ==> inputs[i] != outputs[l]
        {
          if inputs[i] == outputs[k] {
            return false;
          }
        }
      }
      return true;
    }

    /** `pai_graph_add_op`: a fresh id, or 0. */
    method AddOp(kind: nat, inputs: seq<nat>, outputs: seq<nat>) returns (id: nat)
      requires Valid()
      modifies this
      ensures Valid()
      ensures id != 0 <==> CanAddOp(old(Abs()), inputs, outputs)
      ensures id == 0 ==> Abs() == old(Abs()) && sorted == old(sorted)
      ensures id != 0 ==> CanAddOp(old(Abs()), inputs, outputs)
                          && id == |old(ops)| && Abs() == AddedOp(old(Abs()), kind, inputs, outputs) && !sorted
    {
      hide NetOk;
      assert |ops| >= 1 by { NetOkSizes(Abs()); }
      if |inputs| > MAX_ARITY || |outputs| > MAX_ARITY || |ops| - 1 >= MAX_OPS {
        return 0;
      }
      var ok := CheckOperands(inputs, outputs);
      if !ok {
        return 0;
      }
      ghost var n := Abs();
      assert forall i :: 0 <= i < |outputs| ==> IsValue(n, outputs[i]) && outputs[i] < |values|;
      AddedOpOk(n, kind, inputs, outputs);
      id := |ops|;
      ops := ops + [Op(kind, inputs, outputs, 0)];
      MarkOutputs(outputs, id);
      sorted := false;
    }

    method MarkOutputs(outputs: seq<nat>, id: nat)
      requires forall i :: 0 <= i < |outputs| ==> outputs[i] < |values|
      modifies this`values
      ensures values == MarkProduced(old(values), outputs, id)
    {
      for i := 0 to |outputs|
        invariant |values| == |old(values)|
        invariant values == MarkProduced(old(values), outputs[..i], id)
      {
        assert outputs[..i + 1][..i] == outputs[..i];
        values := values[outputs[i] := values[outputs[i]].(producer := id)];
      }
      assert outputs[..|outputs|] == outputs;
    }

    method SetInput(value: nat)
      requires Valid()
      modifies this
      ensures Valid() && ops == old(ops) && sorted == old(sorted)
      ensures values == if IsValue(old(Abs()), value)
                        then old(values)[value := old(values)[value].(isInput := true)] else old(values)
    {
      if value != 0 && value <= |values| - 1 {
        ghost var n := Abs();
        values := values[value := values[value].(isInput := true)];
        FlaggedOk(n, Abs());
      }
    }

    method SetOutput(value: nat)
      requires Valid()
      modifies this
      ensures Valid() && ops == old(ops) && sorted == old(sorted)
      ensures values == if IsValue(old(Abs()), value)
                        then old(values)[value := old(values)[value].(isOutput := true)] else old(values)
    {
      if value != 0 && value <= |values| - 1 {
        ghost var n := Abs();
        values := values[value := values[value].(isOutput := true)];
        FlaggedOk(n, Abs());
      }
    }

    /** `pai_graph_topo_sort`: OK exactly for acyclic graphs, with producers before consumers. */
    method Sort() returns (st: Status)
      requires Valid()
      modifies this`ops, this`sorted
      ensures Valid() && (st == Ok || st == Mismatch)
      ensures st == Ok <==> Acyclic(old(Abs()))
      ensures st == Ok ==> sorted && EpochsOk(Abs()) && SameButEpochs(old(ops), ops)
      ensures st == Mismatch ==> !sorted && ops == old(ops)
    {
      var n := Net(values, ops);
      var kahn := new Kahn(n);
      kahn.CountIndegrees(n);
      kahn.QueueRoots(n);
      var order := new nat[|ops| - 1](_ => 0);
      ghost var R;
      var processed;
      processed, R := kahn.Drain(n, order);
      if processed != |ops| - 1 {
        IncompleteCycle(n, kahn.indegree[..], kahn.Queue(), R);
        sorted := false;
        return Mismatch;
      }
      var done := order[..];
      assert done == order[..processed] == kahn.Queue();
      for i := 0 to |done|
        invariant SameButEpochs(n.ops, ops) && values == n.values
        invariant forall k :: 0 <= k < i ==> ops[done[k]].epoch == k
      {
        ops := ops[done[i] := ops[done[i]].(epoch := i)];
      }
      sorted := true;
      OrderEpochs(n, done, ops);
      SameButEpochsOk(n, ops);
      EpochsAcyclic(Net(values, ops));
      st := Ok;
    }

    /** Last consuming epoch and use flag of every value. */
    method CountUses(lastUse: array<nat>, used: array<bool>)
      requires Valid() && lastUse.Length == used.Length == |values|
      requires forall v :: 0 <= v < |values| ==> lastUse[v] == 0 && !used[v]
      modifies lastUse, used
      ensures forall v :: 0 <= v < |values| ==>
                used[v] == Used(Abs(), v, |ops|) && lastUse[v] == LastUse(Abs(), v, |ops|)
    {
      hide NetOk, EpochsOk;
      assert |ops| >= 1 by { NetOkSizes(Abs()); }
      ghost var n := Abs();
      for o := 1 to |ops|
        invariant forall v :: 0 <= v < |values| ==>
                    used[v] == Used(n, v, o) && lastUse[v] == LastUse(n, v, o)
      {
        var ins := ops[o].inputs;
        for i := 0 to |ins|
          invariant forall v :: 0 <= v < |values| ==> used[v] == (Used(n, v, o) || v in ins[..i])
          invariant forall v :: 0 <= v < |values| ==>
                      lastUse[v] == if v in ins[..i] && ops[o].epoch > LastUse(n, v, o) then ops[o].epoch
                                    else LastUse(n, v, o)
        {
          InputOk(n, o, i);
          var v := ins[i];
          assert ins[..i + 1] == ins[..i] + [v];
          used[v] := true;
          if ops[o].epoch > lastUse[v] {
            lastUse[v] := ops[o].epoch;
          }
        }
        assert ins[..|ins|] == ins;
      }
    }

    method EnsureSorted() returns (st: Status)
      requires Valid()
      modifies this`ops, this`sorted
      ensures Valid() && (st == Ok || st == Mismatch)
      ensures st == Ok <==> Acyclic(old(Abs()))
      ensures st == Ok ==> sorted && EpochsOk(Abs()) && SameButEpochs(old(ops), ops)
      ensures old(sorted) ==> ops == old(ops)
    {
      if sorted {
        EpochsAcyclic(Abs());
        return Ok;
      }
      st := Sort();
    }

    /** `pai_graph_value_lifetimes`. */
    method ValueLifetimes(outStart: array<nat>, outEnd: array<nat>) returns (st: Status)
      requires Valid() && outStart != outEnd && outStart.Length == outEnd.Length == MAX_VALUES + 1
      modifies this`ops, this`sorted, outStart, outEnd
      ensures Valid() && (st == Ok || st == Mismatch) && (old(sorted) ==> ops == old(ops))
      ensures st == Ok <==> Acyclic(old(Abs()))
      ensures st == Ok ==>
                && sorted && EpochsOk(Abs()) && SameButEpochs(old(ops), ops)
                && forall v :: IsValue(Abs(), v) ==>
                     outStart[v] == Start(Abs(), v) && outEnd[v] == End(Abs(), v, false)
    {
      hide Acyclic, EpochsOk, SameButEpochs, ValueOk, OpOk, Tensor.SizeOk;
      for v := 0 to outStart.Length
        modifies outStart
      {
        outStart[v] := 0;
      }
      for v := 0 to outEnd.Length
        modifies outEnd
      {
        outEnd[v] := 0;
      }
      st := EnsureSorted();
      if st != Ok {
        return;
      }
      var lastUse := new nat[|values|](_ => 0);
      var used := new bool[|values|](_ => false);
      CountUses(lastUse, used);
      for v := 1 to |values|
        modifies outStart, outEnd
        invariant forall u :: 1 <= u < v ==>
                    outStart[u] == Start(Abs(), u) && outEnd[u] == End(Abs(), u, false)
      {
        ProducerOk(Abs(), v);
        var start := if values[v].producer != 0 then ops[values[v].producer].epoch else 0;
        var end := if values[v].isOutput then |ops| - 1
                   else if used[v] then lastUse[v] + 1 else start + 1;
        outStart[v], outEnd[v] := start, end;
      }
    }

    /** `pai_graph_value_lifetimes_persistent`. */
    method ValueLifetimesPersistent(outStart: array<nat>, outEnd: array<nat>) returns (st: Status)
      requires Valid() && outStart != outEnd && outStart.Length == outEnd.Length == MAX_VALUES + 1
      modifies this`ops, this`sorted, outStart, outEnd
      ensures Valid() && (st == Ok || st == Mismatch) && (old(sorted) ==> ops == old(ops))
      ensures st == Ok <==> Acyclic(old(Abs()))
      ensures st == Ok ==>
                && sorted && EpochsOk(Abs()) && SameButEpochs(old(ops), ops)
                && forall v :: IsValue(Abs(), v) ==>
                     outStart[v] == Start(Abs(), v) && outEnd[v] == End(Abs(), v, true)
    {
      hide Acyclic, EpochsOk, SameButEpochs, ValueOk, OpOk, Tensor.SizeOk, Used, LastUse;
      st := ValueLifetimes(outStart, outEnd);
      if st != Ok {
        return;
      }
      assert |ops| >= 1 by { NetOkSizes(Abs()); }
      for v := 1 to |values|
        modifies outEnd
        invariant forall u :: IsValue(Abs(), u) ==>
                    outStart[u] == Start(Abs(), u) && outEnd[u] == End(Abs(), u, u < v)
      {
        if values[v].producer == 0 {
          outEnd[v] := |ops| - 1;
        }
      }
    }

    /** `graph_memory_plan_impl`. */
    method MemoryPlan(persistent: bool) returns (st: Status, plan: GraphPlan)
      requires Valid()
      modifies this`ops, this`sorted
      ensures Valid() && (old(sorted) ==> ops == old(ops))
      ensures st == Mismatch <==> !Acyclic(old(Abs()))
      ensures st != Mismatch ==>
                && sorted && EpochsOk(Abs()) && SameButEpochs(old(ops), ops)
                && (st == InvalidArg <==> !AllWellFormed(RequestsOf(Abs(), persistent)))
                && (Roomy(RequestsOf(Abs(), persistent), 0) && st != InvalidArg ==>
                      st == Ok && PlanOk(Abs(), persistent, plan))
    {
      plan := GraphPlan([], 0, 0, 0);
      var start := new nat[MAX_VALUES + 1];
      var end := new nat[MAX_VALUES + 1];
      if persistent {
        st := ValueLifetimesPersistent(start, end);
      } else {
        st := ValueLifetimes(start, end);
      }
      if st != Ok {
        return;
      }
      var planner;
      st, planner := AddRequests(persistent, start, end);
      if st != Ok {
        return;
      }
      var base;
      ghost var order;
      st, base, order := planner.Build();
      if st != Ok {
        return;
      }
      plan := GraphPlan([0] + base.offsets, base.regionBytes, base.naiveBytes, base.peakLive);
    }

    /** Register one request per value, in id order. */
    method AddRequests(persistent: bool, start: array<nat>, end: array<nat>)
      returns (st: Status, planner: MemPlanner)
      requires Valid() && EpochsOk(Abs()) && start.Length == end.Length == MAX_VALUES + 1
      requires forall v :: IsValue(Abs(), v) ==>
                 start[v] == Start(Abs(), v) && end[v] == End(Abs(), v, persistent)
      ensures fresh(planner) && planner.Valid() && planner.arenaAlign == 0
      ensures st == if AllWellFormed(RequestsOf(Abs(), persistent)) then Ok else InvalidArg
      ensures st == Ok ==> planner.allocs == RequestsOf(Abs(), persistent)
    {
      planner := new MemPlanner();
      ghost var rs := RequestsOf(Abs(), persistent);
      for v := 1 to |values|
        invariant planner.Valid() && planner.arenaAlign == 0 && planner.allocs == rs[..v - 1]
        invariant forall i :: 0 <= i < v - 1 ==> WellFormed(rs[i])
      {
        LifetimeNonEmpty(Abs(), v, persistent);
        st := planner.AddCommon(values[v].size, values[v].align, start[v], end[v], false);
        assert rs[v - 1] == RequestOf(Abs(), v, persistent);
        if st != Ok {
          return;
        }
      }
      st := Ok;
    }
  }

  lemma ProducerOk(n: Net, v: nat)
    requires NetOk(n) && IsValue(n, v)
    ensures n.values[v].producer != 0 ==> IsOp(n, n.values[v].producer)
  {
    assert ValueOk(n, v);
  }

  /** The offsets of a graph plan, indexed by value id, lay the values out safely. */
  ghost predicate PlanOk(n: Net, persistent: bool, plan: GraphPlan)
    requires NetOk(n) && EpochsOk(n)
  {
    && |plan.offsets| == |n.values|
    && GoodLayout(RequestsOf(n, persistent), plan.offsets[1..], plan.regionBytes)
    && IsPeak(RequestsOf(n, persistent), plan.peakLive)
    && plan.peakLive <= plan.regionBytes
  }
}
