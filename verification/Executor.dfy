/** The schedule and the step loop of scheduler/scheduler.c over one region
    array, and planning followed by execution. */
module Executor {
  import opened Mem
  import opened Seqs
  import opened Net
  import opened PlannerSafety
  import opened TopoSort
  import opened Planner
  import opened PlannerTheorems
  import opened Lifetimes
  import opened Graph
  import opened Execution

  /** `sched_build_impl`: the op of every epoch; its gap check never fires on a sorted graph. */
  method BuildSchedule(n: Net) returns (st: Status, steps: seq<nat>)
    requires NetOk(n) && EpochsOk(n)
    ensures st == Ok && |steps| == NumOps(n)
    ensures forall k :: 0 <= k < NumOps(n) ==> steps[k] == OpAt(n, k)
  {
    hide NetOk;
    assert |n.ops| >= 1 by { NetOkSizes(n); }
    var opAt := new nat[NumOps(n)](_ => 0);
    for o := 1 to |n.ops|
      invariant forall a :: 1 <= a < o ==> opAt[n.ops[a].epoch] == a
    {
      assert IsOp(n, o) && forall a :: 1 <= a < o ==> IsOp(n, a);
      opAt[n.ops[o].epoch] := o;
    }
    steps := opAt[..];
    forall k | 0 <= k < NumOps(n)
      ensures steps[k] == OpAt(n, k)
    {
      var o := OpAt(n, k);
      assert opAt[n.ops[o].epoch] == o;
    }
    var gap := false;
    for s := 0 to NumOps(n)
      invariant !gap
    {
      assert IsOp(n, OpAt(n, s));
      gap := gap || steps[s] == 0;
    }
    st := if gap then Mismatch else Ok;
  }

  method ReadValues(n: Net, lay: Layout, region: array<bv8>, ins: seq<nat>) returns (data: seq<Bytes>)
    requires |lay.offsets| == |n.values|
    requires forall i :: 0 <= i < |ins| ==>
               ins[i] < |n.values| && lay.offsets[ins[i]] + n.values[ins[i]].size <= region.Length
    ensures data == GetAll(n, lay, region[..], ins)
  {
    data := [];
    for i := 0 to |ins|
      invariant |data| == i && forall j :: 0 <= j < i ==> data[j] == Get(n, lay, region[..], ins[j])
    {
      var off := lay.offsets[ins[i]];
      assert region[off..off + n.values[ins[i]].size] == region[..][off..off + n.values[ins[i]].size];
      data := data + [region[off..off + n.values[ins[i]].size]];
    }
  }

  method WriteBytes(region: array<bv8>, off: nat, data: Bytes)
    requires off + |data| <= region.Length
    modifies region
    ensures region[..] == Store(old(region[..]), off, data)
  {
    for i := 0 to |data|
      invariant region[..] == old(region[..off]) + data[..i] + old(region[off + i..])
    {
      region[off + i] := data[i];
      assert data[..i + 1] == data[..i] + [data[i]];
    }
    assert data[..|data|] == data;
  }

  method WriteValues(n: Net, lay: Layout, region: array<bv8>, outs: seq<nat>, data: seq<Bytes>)
    requires |lay.offsets| == |n.values| && |outs| == |data|
    requires forall i :: 0 <= i < |outs| ==>
               outs[i] < |n.values| && lay.offsets[outs[i]] + |data[i]| <= region.Length
    modifies region
    ensures region[..] == PutAll(n, lay, old(region[..]), outs, data)
  {
    for i := 0 to |outs|
      invariant region[..] == PutAll(n, lay, old(region[..]), outs[..i], data[..i])
    {
      assert outs[..i + 1][..i] == outs[..i] && data[..i + 1][..i] == data[..i];
      WriteBytes(region, lay.offsets[outs[i]], data[i]);
    }
    assert outs[..|outs|] == outs && data[..|data|] == data;
  }

  /** `pai_sched_execute`: every op in epoch order, reading and writing its ranges of the region. */
  method Execute(n: Net, sem: Semantics, lay: Layout, ghost persistent: bool, steps: seq<nat>, region: array<bv8>)
    requires NetOk(n) && EpochsOk(n) && SemanticsOk(n, sem) && LayoutOk(n, persistent, lay)
    requires region.Length == lay.regionBytes && |steps| == NumOps(n)
    requires forall k :: 0 <= k < NumOps(n) ==> steps[k] == OpAt(n, k)
    modifies region
    ensures region[..] == SharedRun(n, sem, lay, persistent, old(region[..]), NumOps(n))
  {
    hide NetOk, EpochsOk, LayoutOk, GetAll, PutAll;
    LayoutFacts(n, lay, persistent);
    for k := 0 to |steps|
      invariant region[..] == SharedRun(n, sem, lay, persistent, old(region[..]), k)
    {
      var o := steps[k];
      assert o == OpAt(n, k);
      OperandsFit(n, lay, persistent, o);
      ghost var before := region[..];
      var ins := ReadValues(n, lay, region, n.ops[o].inputs);
      WriteValues(n, lay, region, n.ops[o].outputs, sem(o, ins));
      assert region[..] == SharedStep(n, sem, lay, persistent, before, o);
    }
  }

  /** Put the contents of the values that no op produces into the region. */
  method LoadInputs(n: Net, lay: Layout, ghost persistent: bool, init: seq<Bytes>, region: array<bv8>)
    requires NetOk(n) && LayoutOk(n, persistent, lay) && region.Length == lay.regionBytes
    requires |init| == |n.values| && forall v :: IsValue(n, v) ==> |init[v]| == n.values[v].size
    modifies region
    ensures Loaded(n, lay, persistent, region[..], init)
  {
    hide NetOk, LayoutOk, End;
    assert |n.values| >= 1 by { NetOkSizes(n); }
    LayoutFacts(n, lay, persistent);
    for v := 1 to |n.values|
      invariant forall u :: 1 <= u < v && n.values[u].producer == 0 ==> Get(n, lay, region[..], u) == init[u]
    {
      if n.values[v].producer == 0 {
        ghost var before := region[..];
        assert IsValue(n, v);
        WriteBytes(region, lay.offsets[v], init[v]);
        StoreLoadSame(before, lay.offsets[v], init[v]);
        forall u | 1 <= u < v && n.values[u].producer == 0
          ensures Get(n, lay, region[..], u) == Get(n, lay, before, u)
        {
          InputsMeet(n, lay, persistent, v, u);
          StoreLoadApart(before, lay.offsets[v], init[v], lay.offsets[u], n.values[u].size);
        }
      }
    }
  }

  /** Values without producer are all live at epoch 0. */
  lemma InputsMeet(n: Net, lay: Layout, persistent: bool, v: nat, u: nat)
    requires NetOk(n) && LayoutOk(n, persistent, lay) && IsValue(n, v) && IsValue(n, u) && u != v
    requires n.values[v].producer == 0 == n.values[u].producer
    ensures Apart(lay.offsets[v], n.values[v].size, lay.offsets[u], n.values[u].size)
  {
    assert Meet(n, persistent, v, u);
  }

  function ValueSpan(v: Value): nat { v.size + v.align }

  /** Sizes and alignments of all values sum to less than 2^64. */
  ghost predicate RoomyValues(values: seq<Value>) {
    values != [] && SumBy(ValueSpan, values[1..]) < U64_SIZE
  }

  lemma {:induction false} SpanSum(values: seq<Value>, rs: seq<Request>)
    requires |values| == |rs|
    requires forall i :: 0 <= i < |rs| ==> Span(rs[i]) == ValueSpan(values[i])
    ensures SumBy(Span, rs) == SumBy(ValueSpan, values)
  {
    if rs != [] {
      SpanSum(values[..|rs| - 1], rs[..|rs| - 1]);
    }
  }

  lemma RoomyRequests(n: Net, persistent: bool)
    requires NetOk(n) && EpochsOk(n) && RoomyValues(n.values)
    ensures Roomy(RequestsOf(n, persistent), 0)
  {
    hide NetOk, EpochsOk;
    var rs := RequestsOf(n, persistent);
    forall i | 0 <= i < |rs|
      ensures Span(rs[i]) == ValueSpan(n.values[1..][i])
    {
      assert rs[i] == RequestOf(n, i + 1, persistent);
    }
    SpanSum(n.values[1..], rs);
  }

  /** A graph without ops leaves no lifetime to a value that is kept to the end. */
  ghost predicate HasLifetimes(n: Net, persistent: bool) {
    NumOps(n) > 0
    || forall v :: IsValue(n, v) ==> !(n.values[v].isOutput || (persistent && n.values[v].producer == 0))
  }

  lemma RequestsWellFormed(n: Net, persistent: bool)
    requires NetOk(n) && EpochsOk(n) && RoomyValues(n.values)
    ensures AllWellFormed(RequestsOf(n, persistent)) <==> HasLifetimes(n, persistent)
  {
    hide NetOk, EpochsOk, End, Start, IsPow2;
    var rs := RequestsOf(n, persistent);
    forall v | IsValue(n, v)
      ensures WellFormed(rs[v - 1])
              <==> NumOps(n) > 0 || !(n.values[v].isOutput || (persistent && n.values[v].producer == 0))
    {
      assert rs[v - 1] == RequestOf(n, v, persistent);
      LifetimeNonEmpty(n, v, persistent);
      ValueFits(n, v);
      assert n.values[1..][v - 1] == n.values[v];
      SumByRemove(ValueSpan, n.values[1..], v - 1);
    }
    if HasLifetimes(n, persistent) {
      forall i | 0 <= i < |rs|
        ensures WellFormed(rs[i])
      {
        assert IsValue(n, i + 1);
      }
    }
  }

  lemma ValueFits(n: Net, v: nat)
    requires NetOk(n) && IsValue(n, v)
    ensures n.values[v].size > 0 && IsPow2(n.values[v].align) && n.values[v].align > 0
  {
    assert ValueOk(n, v);
  }

  lemma SameLifetimes(n: Net, ops: seq<Op>, persistent: bool)
    requires |n.ops| == |ops|
    ensures HasLifetimes(n.(ops := ops), persistent) <==> HasLifetimes(n, persistent)
  {
    assert forall v :: IsValue(n.(ops := ops), v) <==> IsValue(n, v);
  }

  lemma SemanticsKept(n: Net, ops: seq<Op>, sem: Semantics)
    requires NetOk(n) && SameButEpochs(n.ops, ops) && SemanticsOk(n, sem)
    ensures NetOk(n.(ops := ops)) && SemanticsOk(n.(ops := ops), sem)
  {
    SameButEpochsOk(n, ops);
    var m := n.(ops := ops);
    forall o, ins | IsOp(m, o)
      ensures |sem(o, ins)| == |m.ops[o].outputs|
      ensures forall i :: 0 <= i < |m.ops[o].outputs| ==>
                m.ops[o].outputs[i] < |m.values| && |sem(o, ins)[i]| == m.values[m.ops[o].outputs[i]].size
    {
      assert IsOp(n, o);
    }
  }

  lemma EpochsSize(a: seq<Op>, b: seq<Op>)
    requires SameButEpochs(a, b)
    ensures |a| == |b|
  {
  }

  /** Planning and running a graph computes, in one shared region, what private
      storage computes: every output-flagged value ends with the same contents. */
  method PlanAndExecute(g: Graph, persistent: bool, sem: Semantics, init: seq<Bytes>)
    returns (st: Status, plan: GraphPlan, region: array<bv8>)
    requires g.Valid() && SemanticsOk(g.Abs(), sem) && RoomyValues(g.values)
    requires |init| == |g.values|
    requires forall v :: IsValue(g.Abs(), v) ==> |init[v]| == g.values[v].size
    modifies g`ops, g`sorted
    ensures g.Valid()
    ensures st == Mismatch <==> !Acyclic(old(g.Abs()))
    ensures st == Ok <==> Acyclic(old(g.Abs())) && HasLifetimes(old(g.Abs()), persistent)
    ensures st == Ok ==>
              && EpochsOk(g.Abs()) && SemanticsOk(g.Abs(), sem) && SameButEpochs(old(g.ops), g.ops)
              && LayoutOk(g.Abs(), persistent, LayoutOf(plan)) && region.Length == plan.regionBytes
              && forall v :: IsValue(g.Abs(), v) && g.values[v].isOutput ==>
                   Get(g.Abs(), LayoutOf(plan), region[..], v)
                   == PrivateRun(g.Abs(), sem, init, NumOps(g.Abs()))[v]
  {
    hide NetOk, EpochsOk, LayoutOk, SemanticsOk, Acyclic, SameButEpochs, RequestsOf, PlanOk, Get, HasLifetimes;
    ghost var before := g.Abs();
    st, plan := g.MemoryPlan(persistent);
    region := new bv8[0];
    if st == Mismatch {
      return;
    }
    var n := Net(g.values, g.ops);
    RoomyRequests(n, persistent);
    RequestsWellFormed(n, persistent);
    assert |before.ops| == |n.ops| by { EpochsSize(before.ops, n.ops); }
    SameLifetimes(before, n.ops, persistent);
    if st != Ok {
      return;
    }
    SemanticsKept(before, n.ops, sem);
    PlanIsLayout(n, persistent, plan);
    region := new bv8[plan.regionBytes](_ => 0);
    var lay := LayoutOf(plan);
    LoadInputs(n, lay, persistent, init, region);
    ghost var loaded := region[..];
    var steps;
    st, steps := BuildSchedule(n);
    Execute(n, sem, lay, persistent, steps, region);
    LayoutFacts(n, lay, persistent);
    forall v | IsValue(n, v) && n.values[v].isOutput
      ensures Get(n, lay, region[..], v) == PrivateRun(n, sem, init, NumOps(n))[v]
    {
      OutputsPreserved(n, sem, lay, persistent, loaded, init, v);
    }
  }
}
