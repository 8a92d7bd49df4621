/** Running a sorted graph over the planned shared region computes what private
    storage for every value computes (graph/graph.c, memory/planner.c, and the
    step loop of scheduler/scheduler.c). */
module Execution {
  import opened Mem
  import opened Net
  import opened TopoSort
  import opened Lifetimes
  import opened Planner
  import opened PlannerSafety
  import opened PlannerTheorems
  import opened Graph

  type Bytes = seq<bv8>

  /** Any deterministic meaning of the ops: outputs as a function of inputs. */
  type Semantics = (nat, seq<Bytes>) -> seq<Bytes>

  /** One output per output value, of the size of that value. */
  ghost predicate SemanticsOk(n: Net, sem: Semantics)
    requires NetOk(n)
  {
    forall o, ins :: IsOp(n, o) ==>
      && |sem(o, ins)| == |n.ops[o].outputs|
      && forall i :: 0 <= i < |n.ops[o].outputs| ==>
           n.ops[o].outputs[i] < |n.values| && |sem(o, ins)[i]| == n.values[n.ops[o].outputs[i]].size
  }


  /** The epochs of ops 1..n, counted from 1. */
  ghost function EpochIds(n: Net): (es: seq<nat>)
    ensures |es| == NumOps(n)
    ensures forall i :: 0 <= i < |es| ==> es[i] == n.ops[i + 1].epoch + 1
  {
    seq(NumOps(n), i requires 0 <= i < NumOps(n) => n.ops[i + 1].epoch + 1)
  }

  lemma EpochIdsDistinct(n: Net)
    requires EpochsOk(n)
    ensures Distinct(EpochIds(n))
    ensures forall i :: 0 <= i < NumOps(n) ==> 1 <= EpochIds(n)[i] <= NumOps(n)
  {
    hide Edge, EpochIds;
    var es := EpochIds(n);
    forall i | 0 <= i < |es|
      ensures 1 <= es[i] <= NumOps(n)
    {
      assert IsOp(n, i + 1);
    }
    forall i, j | 0 <= i < j < |es|
      ensures es[i] != es[j]
    {
      assert IsOp(n, i + 1) && IsOp(n, j + 1);
    }
  }

  /** Distinct epochs below n are all taken. */
  lemma EveryEpochTaken(n: Net, k: nat)
    requires NetOk(n) && EpochsOk(n) && k < NumOps(n)
    ensures exists o: nat :: IsOp(n, o) && n.ops[o].epoch == k
  {
    hide NetOk, EpochsOk, EpochIds, Distinct;
    var es := EpochIds(n);
    EpochIdsDistinct(n);
    DistinctBound(es, NumOps(n));
    assert k + 1 in es;
    var i :| 0 <= i < |es| && es[i] == k + 1;
    assert IsOp(n, i + 1) && n.ops[i + 1].epoch == k;
  }

  /** The op that runs at epoch k. */
  ghost function OpAt(n: Net, k: nat): (o: nat)
    requires NetOk(n) && EpochsOk(n) && k < NumOps(n)
    ensures IsOp(n, o) && n.ops[o].epoch == k
  {
    EveryEpochTaken(n, k);
    var o: nat :| IsOp(n, o) && n.ops[o].epoch == k;
    o
  }

  /* ---- private storage ---- */

  /** Write the outputs of an op into per-value storage. */
  ghost function StoreAll(store: seq<Bytes>, outs: seq<nat>, data: seq<Bytes>): (r: seq<Bytes>)
    requires |outs| == |data| && forall i :: 0 <= i < |outs| ==> outs[i] < |store|
    ensures |r| == |store|
  {
    if outs == [] then store
    else
      var k := |outs| - 1;
      StoreAll(store, outs[..k], data[..k])[outs[k] := data[k]]
  }

  ghost function Gather(store: seq<Bytes>, ins: seq<nat>): seq<Bytes>
    requires forall i :: 0 <= i < |ins| ==> ins[i] < |store|
  {
    seq(|ins|, i requires 0 <= i < |ins| => store[ins[i]])
  }

  /** Contents of every value after k epochs, each value in storage of its own. */
  ghost function PrivateRun(n: Net, sem: Semantics, init: seq<Bytes>, k: nat): (store: seq<Bytes>)
    requires NetOk(n) && EpochsOk(n) && SemanticsOk(n, sem) && |init| == |n.values| && k <= NumOps(n)
    ensures |store| == |n.values|
  {
    if k == 0 then init
    else
      var store := PrivateRun(n, sem, init, k - 1);
      var o := OpAt(n, k - 1);
      OperandsInRange(n, o);
      StoreAll(store, n.ops[o].outputs, sem(o, Gather(store, n.ops[o].inputs)))
  }

  lemma OperandsInRange(n: Net, o: int)
    requires NetOk(n) && IsOp(n, o)
    ensures forall i :: 0 <= i < |n.ops[o].inputs| ==> n.ops[o].inputs[i] < |n.values|
    ensures forall i :: 0 <= i < |n.ops[o].outputs| ==> n.ops[o].outputs[i] < |n.values|
  {
    assert OpOk(n, o);
    forall i | 0 <= i < |n.ops[o].inputs|
      ensures n.ops[o].inputs[i] < |n.values|
    {
      InputOk(n, o, i);
    }
    forall i | 0 <= i < |n.ops[o].outputs|
      ensures n.ops[o].outputs[i] < |n.values|
    {
      OutputOk(n, o, i);
    }
  }

  /* ---- the shared region ---- */

  ghost function Load(region: Bytes, off: nat, size: nat): Bytes
    requires off + size <= |region|
  {
    region[off..off + size]
  }

  ghost function Store(region: Bytes, off: nat, data: Bytes): (r: Bytes)
    requires off + |data| <= |region|
    ensures |r| == |region|
  {
    region[..off] + data + region[off + |data|..]
  }

  lemma StoreLoadSame(region: Bytes, off: nat, data: Bytes)
    requires off + |data| <= |region|
    ensures Load(Store(region, off, data), off, |data|) == data
  {
  }

  lemma StoreLoadApart(region: Bytes, off: nat, data: Bytes, x: nat, xs: nat)
    requires off + |data| <= |region| && x + xs <= |region| && Apart(off, |data|, x, xs)
    ensures Load(Store(region, off, data), x, xs) == Load(region, x, xs)
  {
    var r := Store(region, off, data);
    forall i | x <= i < x + xs
      ensures r[i] == region[i]
    {
    }
  }

  /** Where the plan puts every value. */
  datatype Layout = Layout(offsets: seq<nat>, regionBytes: nat)

  /** Offsets inside the region; values whose lifetimes meet share no byte. */
  ghost predicate LayoutOk(n: Net, persistent: bool, lay: Layout)
    requires NetOk(n)
  {
    && |lay.offsets| == |n.values|
    && (forall v :: IsValue(n, v) ==> lay.offsets[v] + n.values[v].size <= lay.regionBytes)
    && (forall v :: IsValue(n, v) ==> Start(n, v) < End(n, v, persistent))
    && (forall v, w :: IsValue(n, v) && IsValue(n, w) && v != w && Meet(n, persistent, v, w) ==>
          Apart(lay.offsets[v], n.values[v].size, lay.offsets[w], n.values[w].size))
  }

  predicate Meet(n: Net, persistent: bool, v: nat, w: nat)
    requires v < |n.values| && w < |n.values|
  {
    Start(n, v) < End(n, w, persistent) && Start(n, w) < End(n, v, persistent)
  }

  /** Read value v from the region. */
  ghost function Get(n: Net, lay: Layout, region: Bytes, v: nat): Bytes
    requires |lay.offsets| == |n.values| && v < |n.values|
    requires lay.offsets[v] + n.values[v].size <= |region|
  {
    Load(region, lay.offsets[v], n.values[v].size)
  }

  ghost function GetAll(n: Net, lay: Layout, region: Bytes, ins: seq<nat>): seq<Bytes>
    requires |lay.offsets| == |n.values|
    requires forall i :: 0 <= i < |ins| ==>
               ins[i] < |n.values| && lay.offsets[ins[i]] + n.values[ins[i]].size <= |region|
  {
    seq(|ins|, i requires 0 <= i < |ins| => Get(n, lay, region, ins[i]))
  }

  ghost function PutAll(n: Net, lay: Layout, region: Bytes, outs: seq<nat>, data: seq<Bytes>): (r: Bytes)
    requires |lay.offsets| == |n.values| && |outs| == |data|
    requires forall i :: 0 <= i < |outs| ==>
               outs[i] < |n.values| && lay.offsets[outs[i]] + |data[i]| <= |region|
    ensures |r| == |region|
  {
    if outs == [] then region
    else
      var k := |outs| - 1;
      Store(PutAll(n, lay, region, outs[..k], data[..k]), lay.offsets[outs[k]], data[k])
  }

  /** One step of the executor: op o reads its input ranges and writes its output ranges. */
  ghost function SharedStep(n: Net, sem: Semantics, lay: Layout, persistent: bool, region: Bytes, o: nat): (r: Bytes)
    requires NetOk(n) && SemanticsOk(n, sem) && LayoutOk(n, persistent, lay) && |region| == lay.regionBytes
    requires IsOp(n, o)
    ensures |r| == |region|
  {
    OperandsFit(n, lay, persistent, o);
    PutAll(n, lay, region, n.ops[o].outputs, sem(o, GetAll(n, lay, region, n.ops[o].inputs)))
  }

  lemma OperandsFit(n: Net, lay: Layout, persistent: bool, o: int)
    requires NetOk(n) && LayoutOk(n, persistent, lay) && IsOp(n, o)
    ensures forall i :: 0 <= i < |n.ops[o].inputs| ==>
              n.ops[o].inputs[i] < |n.values|
              && lay.offsets[n.ops[o].inputs[i]] + n.values[n.ops[o].inputs[i]].size <= lay.regionBytes
    ensures forall i :: 0 <= i < |n.ops[o].outputs| ==>
              n.ops[o].outputs[i] < |n.values|
              && lay.offsets[n.ops[o].outputs[i]] + n.values[n.ops[o].outputs[i]].size <= lay.regionBytes
  {
    forall i | 0 <= i < |n.ops[o].inputs|
      ensures IsValue(n, n.ops[o].inputs[i])
    {
      InputOk(n, o, i);
    }
    forall i | 0 <= i < |n.ops[o].outputs|
      ensures IsValue(n, n.ops[o].outputs[i])
    {
      OutputOk(n, o, i);
    }
  }

  /** The region after k epochs. */
  ghost function SharedRun(n: Net, sem: Semantics, lay: Layout, persistent: bool, region: Bytes, k: nat): (r: Bytes)
    requires NetOk(n) && EpochsOk(n) && SemanticsOk(n, sem) && LayoutOk(n, persistent, lay)
    requires |region| == lay.regionBytes && k <= NumOps(n)
    ensures |r| == |region|
  {
    if k == 0 then region
    else
      SharedStep(n, sem, lay, persistent, SharedRun(n, sem, lay, persistent, region, k - 1), OpAt(n, k - 1))
  }

  /* ---- writing the outputs of one op ---- */

  lemma {:induction false} StoreAllOther(store: seq<Bytes>, outs: seq<nat>, data: seq<Bytes>, v: nat)
    requires |outs| == |data| && forall i :: 0 <= i < |outs| ==> outs[i] < |store|
    requires v < |store| && v !in outs
    ensures StoreAll(store, outs, data)[v] == store[v]
  {
    if outs != [] {
      StoreAllOther(store, outs[..|outs| - 1], data[..|outs| - 1], v);
    }
  }

  lemma {:induction false} StoreAllOutput(store: seq<Bytes>, outs: seq<nat>, data: seq<Bytes>, i: nat)
    requires |outs| == |data| && forall i :: 0 <= i < |outs| ==> outs[i] < |store|
    requires Distinct(outs) && i < |outs|
    ensures StoreAll(store, outs, data)[outs[i]] == data[i]
  {
    var k := |outs| - 1;
    if i < k {
      StoreAllOutput(store, outs[..k], data[..k], i);
    }
  }

  lemma {:induction false} PutAllOther(n: Net, lay: Layout, region: Bytes, outs: seq<nat>, data: seq<Bytes>,
                                       x: nat, xs: nat)
    requires |lay.offsets| == |n.values| && |outs| == |data| && x + xs <= |region|
    requires forall i :: 0 <= i < |outs| ==>
               outs[i] < |n.values| && lay.offsets[outs[i]] + |data[i]| <= |region|
               && Apart(lay.offsets[outs[i]], |data[i]|, x, xs)
    ensures Load(PutAll(n, lay, region, outs, data), x, xs) == Load(region, x, xs)
  {
    if outs != [] {
      var k := |outs| - 1;
      PutAllOther(n, lay, region, outs[..k], data[..k], x, xs);
      StoreLoadApart(PutAll(n, lay, region, outs[..k], data[..k]), lay.offsets[outs[k]], data[k], x, xs);
    }
  }

  lemma {:induction false} PutAllOutput(n: Net, lay: Layout, region: Bytes, outs: seq<nat>, data: seq<Bytes>, i: nat)
    requires |lay.offsets| == |n.values| && |outs| == |data| && i < |outs|
    requires forall j :: 0 <= j < |outs| ==>
               outs[j] < |n.values| && lay.offsets[outs[j]] + |data[j]| <= |region|
    requires forall j :: i < j < |outs| ==>
               Apart(lay.offsets[outs[j]], |data[j]|, lay.offsets[outs[i]], |data[i]|)
    ensures Load(PutAll(n, lay, region, outs, data), lay.offsets[outs[i]], |data[i]|) == data[i]
  {
    var k := |outs| - 1;
    var before := PutAll(n, lay, region, outs[..k], data[..k]);
    if i == k {
      StoreLoadSame(before, lay.offsets[outs[k]], data[k]);
    } else {
      PutAllOutput(n, lay, region, outs[..k], data[..k], i);
      StoreLoadApart(before, lay.offsets[outs[k]], data[k], lay.offsets[outs[i]], |data[i]|);
    }
  }

  /* ---- agreement of the two runs ---- */

  /** Value v has its contents before epoch k. */
  predicate Defined(n: Net, v: nat, k: nat)
    requires v < |n.values|
  {
    n.values[v].producer == 0 || Start(n, v) < k
  }

  /** Every value that is defined and not dead before epoch k has the same
      contents in the region as in private storage. */
  ghost predicate Agree(n: Net, lay: Layout, persistent: bool, region: Bytes, store: seq<Bytes>, k: nat)
    requires NetOk(n) && LayoutOk(n, persistent, lay) && |region| == lay.regionBytes && |store| == |n.values|
  {
    forall v :: IsValue(n, v) && Defined(n, v, k) && k <= End(n, v, persistent) ==>
      Get(n, lay, region, v) == store[v]
  }

  /** The op at epoch k sees the same inputs in both runs. */
  lemma SameInputs(n: Net, lay: Layout, persistent: bool, region: Bytes, store: seq<Bytes>, k: nat)
    requires NetOk(n) && EpochsOk(n) && LayoutOk(n, persistent, lay) && |region| == lay.regionBytes
    requires |store| == |n.values| && k < NumOps(n) && Agree(n, lay, persistent, region, store, k)
    ensures var ins := n.ops[OpAt(n, k)].inputs;
            && (forall i :: 0 <= i < |ins| ==>
                  ins[i] < |n.values| && lay.offsets[ins[i]] + n.values[ins[i]].size <= |region|)
            && GetAll(n, lay, region, ins) == Gather(store, ins)
  {
    hide NetOk, EpochsOk;
    var o := OpAt(n, k);
    OperandsFit(n, lay, persistent, o);
    forall i | 0 <= i < |n.ops[o].inputs|
      ensures Get(n, lay, region, n.ops[o].inputs[i]) == store[n.ops[o].inputs[i]]
    {
      ReadInLifetime(n, o, n.ops[o].inputs[i], persistent);
    }
  }

  /** An output of the op at epoch k starts there. */
  lemma OutputStarts(n: Net, o: int, i: nat)
    requires NetOk(n) && IsOp(n, o) && i < |n.ops[o].outputs|
    ensures IsValue(n, n.ops[o].outputs[i]) && Start(n, n.ops[o].outputs[i]) == n.ops[o].epoch
  {
    OutputOk(n, o, i);
  }

  /** A value defined by the op that runs at epoch k is one of its outputs. */
  lemma DefinedByStep(n: Net, v: nat, k: nat)
    requires NetOk(n) && EpochsOk(n) && k < NumOps(n) && IsValue(n, v)
    requires Defined(n, v, k + 1) && !Defined(n, v, k)
    ensures v in n.ops[OpAt(n, k)].outputs
  {
    assert ValueOk(n, v);
    var p := n.values[v].producer;
    assert IsOp(n, p) && n.ops[p].epoch == k;
    assert p == OpAt(n, k);
  }

  /** What an op writes stays clear of a value live across its epoch. */
  lemma WritesApart(n: Net, lay: Layout, persistent: bool, o: int, v: nat, i: nat)
    requires NetOk(n) && LayoutOk(n, persistent, lay) && IsOp(n, o) && i < |n.ops[o].outputs|
    requires IsValue(n, v) && v != n.ops[o].outputs[i]
    requires Start(n, v) <= n.ops[o].epoch < End(n, v, persistent)
    ensures IsValue(n, n.ops[o].outputs[i])
    ensures Apart(lay.offsets[n.ops[o].outputs[i]], n.values[n.ops[o].outputs[i]].size,
                  lay.offsets[v], n.values[v].size)
  {
    OutputStarts(n, o, i);
    var w := n.ops[o].outputs[i];
    assert Meet(n, persistent, w, v);
  }

  lemma StepOutput(n: Net, sem: Semantics, lay: Layout, persistent: bool, region: Bytes, store: seq<Bytes>,
                   k: nat, v: nat)
    requires NetOk(n) && EpochsOk(n) && SemanticsOk(n, sem) && LayoutOk(n, persistent, lay)
    requires |region| == lay.regionBytes && |store| == |n.values| && k < NumOps(n)
    requires Agree(n, lay, persistent, region, store, k)
    requires v in n.ops[OpAt(n, k)].outputs
    ensures IsValue(n, v)
    ensures var o := OpAt(n, k);
            (forall i :: 0 <= i < |n.ops[o].inputs| ==> n.ops[o].inputs[i] < |n.values|)
            && (forall i :: 0 <= i < |n.ops[o].outputs| ==> n.ops[o].outputs[i] < |n.values|)
            && Get(n, lay, SharedStep(n, sem, lay, persistent, region, o), v)
               == StoreAll(store, n.ops[o].outputs, sem(o, Gather(store, n.ops[o].inputs)))[v]
  {
    hide NetOk, EpochsOk, LayoutOk, Agree, OpAt, End, Start;
    LayoutFacts(n, lay, persistent);
    var o := OpAt(n, k);
    var outs := n.ops[o].outputs;
    OperandsInRange(n, o);
    SameInputs(n, lay, persistent, region, store, k);
    var data := sem(o, Gather(store, n.ops[o].inputs));
    var i :| 0 <= i < |outs| && outs[i] == v;
    DistinctOutputs(n, o);
    OutputOk(n, o, i);
    OperandsFit(n, lay, persistent, o);
    forall j | i < j < |outs|
      ensures Apart(lay.offsets[outs[j]], |data[j]|, lay.offsets[outs[i]], |data[i]|)
    {
      OutputStarts(n, o, i);
      LifetimeHere(n, lay, persistent, v);
      WritesApart(n, lay, persistent, o, v, j);
    }
    PutAllOutput(n, lay, region, outs, data, i);
    StoreAllOutput(store, outs, data, i);
  }

  lemma LayoutFacts(n: Net, lay: Layout, persistent: bool)
    requires NetOk(n) && LayoutOk(n, persistent, lay)
    ensures |lay.offsets| == |n.values|
    ensures forall v :: IsValue(n, v) ==> lay.offsets[v] + n.values[v].size <= lay.regionBytes
  {
  }

  lemma LifetimeHere(n: Net, lay: Layout, persistent: bool, v: nat)
    requires NetOk(n) && LayoutOk(n, persistent, lay) && IsValue(n, v)
    ensures Start(n, v) < End(n, v, persistent)
  {
  }

  lemma DistinctOutputs(n: Net, o: int)
    requires NetOk(n) && IsOp(n, o)
    ensures Distinct(n.ops[o].outputs)
  {
    assert OpOk(n, o);
  }

  lemma StepOther(n: Net, sem: Semantics, lay: Layout, persistent: bool, region: Bytes, store: seq<Bytes>,
                  k: nat, v: nat)
    requires NetOk(n) && EpochsOk(n) && SemanticsOk(n, sem) && LayoutOk(n, persistent, lay)
    requires |region| == lay.regionBytes && |store| == |n.values| && k < NumOps(n)
    requires IsValue(n, v) && v !in n.ops[OpAt(n, k)].outputs
    requires Defined(n, v, k) && k < End(n, v, persistent)
    ensures Get(n, lay, SharedStep(n, sem, lay, persistent, region, OpAt(n, k)), v) == Get(n, lay, region, v)
  {
    hide NetOk, EpochsOk, LayoutOk, OpAt, End;
    LayoutFacts(n, lay, persistent);
    var o := OpAt(n, k);
    var outs := n.ops[o].outputs;
    OperandsFit(n, lay, persistent, o);
    var data := sem(o, GetAll(n, lay, region, n.ops[o].inputs));
    forall j | 0 <= j < |outs|
      ensures Apart(lay.offsets[outs[j]], |data[j]|, lay.offsets[v], n.values[v].size)
    {
      assert outs[j] in outs;
      WritesApart(n, lay, persistent, o, v, j);
    }
    PutAllOther(n, lay, region, outs, data, lay.offsets[v], n.values[v].size);
  }

  /** One epoch keeps the agreement. */
  lemma StepAgrees(n: Net, sem: Semantics, lay: Layout, persistent: bool, region: Bytes, store: seq<Bytes>, k: nat)
    requires NetOk(n) && EpochsOk(n) && SemanticsOk(n, sem) && LayoutOk(n, persistent, lay)
    requires |region| == lay.regionBytes && |store| == |n.values| && k < NumOps(n)
    requires Agree(n, lay, persistent, region, store, k)
    ensures var o := OpAt(n, k);
            (forall i :: 0 <= i < |n.ops[o].inputs| ==> n.ops[o].inputs[i] < |n.values|)
            && (forall i :: 0 <= i < |n.ops[o].outputs| ==> n.ops[o].outputs[i] < |n.values|)
            && Agree(n, lay, persistent, SharedStep(n, sem, lay, persistent, region, o),
                     StoreAll(store, n.ops[o].outputs, sem(o, Gather(store, n.ops[o].inputs))), k + 1)
  {
    hide NetOk, EpochsOk, OpAt, End, SharedStep, LayoutOk, SemanticsOk;
    var o := OpAt(n, k);
    OperandsInRange(n, o);
    LayoutFacts(n, lay, persistent);
    SemanticsArity(n, sem, o, Gather(store, n.ops[o].inputs));
    forall v | IsValue(n, v) && Defined(n, v, k + 1) && k + 1 <= End(n, v, persistent)
      ensures Get(n, lay, SharedStep(n, sem, lay, persistent, region, o), v)
              == StoreAll(store, n.ops[o].outputs, sem(o, Gather(store, n.ops[o].inputs)))[v]
    {
      if v in n.ops[o].outputs {
        StepOutput(n, sem, lay, persistent, region, store, k, v);
      } else {
        if !Defined(n, v, k) {
          DefinedByStep(n, v, k);
        }
        StepOther(n, sem, lay, persistent, region, store, k, v);
        StoreAllOther(store, n.ops[o].outputs, sem(o, Gather(store, n.ops[o].inputs)), v);
      }
    }
  }

  lemma SemanticsArity(n: Net, sem: Semantics, o: nat, ins: seq<Bytes>)
    requires NetOk(n) && SemanticsOk(n, sem) && IsOp(n, o)
    ensures |sem(o, ins)| == |n.ops[o].outputs|
  {
  }

  /** The initial region holds the contents of the values no op produces. */
  ghost predicate Loaded(n: Net, lay: Layout, persistent: bool, region: Bytes, init: seq<Bytes>)
    requires NetOk(n) && LayoutOk(n, persistent, lay) && |region| == lay.regionBytes && |init| == |n.values|
  {
    forall v :: IsValue(n, v) && n.values[v].producer == 0 ==> Get(n, lay, region, v) == init[v]
  }

  /** Memory planning preserves meaning: after any number of epochs, every value
      that is defined and not yet dead has its privately stored contents. */
  lemma {:induction false} RunsAgree(n: Net, sem: Semantics, lay: Layout, persistent: bool, region: Bytes,
                                     init: seq<Bytes>, k: nat)
    requires NetOk(n) && EpochsOk(n) && SemanticsOk(n, sem) && LayoutOk(n, persistent, lay)
    requires |region| == lay.regionBytes && |init| == |n.values| && k <= NumOps(n)
    requires Loaded(n, lay, persistent, region, init)
    ensures Agree(n, lay, persistent, SharedRun(n, sem, lay, persistent, region, k), PrivateRun(n, sem, init, k), k)
    decreases k
  {
    hide NetOk, EpochsOk, LayoutOk, SharedStep, SemanticsOk, OpAt, End;
    if k == 0 {
      LayoutFacts(n, lay, persistent);
    } else {
      RunsAgree(n, sem, lay, persistent, region, init, k - 1);
      StepAgrees(n, sem, lay, persistent, SharedRun(n, sem, lay, persistent, region, k - 1),
                 PrivateRun(n, sem, init, k - 1), k - 1);
    }
  }

  /* ---- the main results ---- */

  /** Every op reads, from the shared region, the inputs it would read from private storage. */
  lemma OpInputsPreserved(n: Net, sem: Semantics, lay: Layout, persistent: bool, region: Bytes,
                          init: seq<Bytes>, k: nat)
    requires NetOk(n) && EpochsOk(n) && SemanticsOk(n, sem) && LayoutOk(n, persistent, lay)
    requires |region| == lay.regionBytes && |init| == |n.values| && k < NumOps(n)
    requires Loaded(n, lay, persistent, region, init)
    ensures var ins := n.ops[OpAt(n, k)].inputs;
            && (forall i :: 0 <= i < |ins| ==>
                  ins[i] < |n.values| && lay.offsets[ins[i]] + n.values[ins[i]].size <= lay.regionBytes)
            && GetAll(n, lay, SharedRun(n, sem, lay, persistent, region, k), ins)
               == Gather(PrivateRun(n, sem, init, k), ins)
  {
    hide NetOk, EpochsOk, LayoutOk, SharedRun, PrivateRun, SemanticsOk, OpAt, Agree;
    RunsAgree(n, sem, lay, persistent, region, init, k);
    SameInputs(n, lay, persistent, SharedRun(n, sem, lay, persistent, region, k),
               PrivateRun(n, sem, init, k), k);
  }

  lemma DefinedAtEnd(n: Net, v: nat)
    requires NetOk(n) && EpochsOk(n) && IsValue(n, v)
    ensures Defined(n, v, NumOps(n))
  {
    assert ValueOk(n, v);
  }

  /** Every output-flagged value ends with the contents private storage gives it. */
  lemma OutputsPreserved(n: Net, sem: Semantics, lay: Layout, persistent: bool, region: Bytes,
                         init: seq<Bytes>, v: nat)
    requires NetOk(n) && EpochsOk(n) && SemanticsOk(n, sem) && LayoutOk(n, persistent, lay)
    requires |region| == lay.regionBytes && |init| == |n.values|
    requires Loaded(n, lay, persistent, region, init)
    requires IsValue(n, v) && (n.values[v].isOutput || (persistent && n.values[v].producer == 0))
    ensures lay.offsets[v] + n.values[v].size <= lay.regionBytes
    ensures Get(n, lay, SharedRun(n, sem, lay, persistent, region, NumOps(n)), v)
            == PrivateRun(n, sem, init, NumOps(n))[v]
  {
    hide NetOk, EpochsOk, SharedRun, PrivateRun, SemanticsOk, Defined;
    RunsAgree(n, sem, lay, persistent, region, init, NumOps(n));
    DefinedAtEnd(n, v);
  }

  /** Private storage never changes a value that no op produces. */
  lemma {:induction false} ProducerlessConstant(n: Net, sem: Semantics, init: seq<Bytes>, k: nat, v: nat)
    requires NetOk(n) && EpochsOk(n) && SemanticsOk(n, sem) && |init| == |n.values| && k <= NumOps(n)
    requires IsValue(n, v) && n.values[v].producer == 0
    ensures PrivateRun(n, sem, init, k)[v] == init[v]
    decreases k
  {
    hide NetOk, EpochsOk, SemanticsOk, OpAt;
    if k > 0 {
      ProducerlessConstant(n, sem, init, k - 1, v);
      var o := OpAt(n, k - 1);
      OperandsInRange(n, o);
      var store := PrivateRun(n, sem, init, k - 1);
      SemanticsArity(n, sem, o, Gather(store, n.ops[o].inputs));
      if v in n.ops[o].outputs {
        var i :| 0 <= i < |n.ops[o].outputs| && n.ops[o].outputs[i] == v;
        OutputOk(n, o, i);
      }
      StoreAllOther(store, n.ops[o].outputs, sem(o, Gather(store, n.ops[o].inputs)), v);
    }
  }

  /** Under the persistent plan a full run leaves every value without producer as it was. */
  lemma PersistentReload(n: Net, sem: Semantics, lay: Layout, region: Bytes, init: seq<Bytes>)
    requires NetOk(n) && EpochsOk(n) && SemanticsOk(n, sem) && LayoutOk(n, true, lay)
    requires |region| == lay.regionBytes && |init| == |n.values| && Loaded(n, lay, true, region, init)
    ensures Loaded(n, lay, true, SharedRun(n, sem, lay, true, region, NumOps(n)), init)
  {
    hide NetOk, EpochsOk, SharedRun, PrivateRun, SemanticsOk, LayoutOk;
    LayoutFacts(n, lay, true);
    forall v | IsValue(n, v) && n.values[v].producer == 0
      ensures Get(n, lay, SharedRun(n, sem, lay, true, region, NumOps(n)), v) == init[v]
    {
      OutputsPreserved(n, sem, lay, true, region, init, v);
      ProducerlessConstant(n, sem, init, NumOps(n), v);
    }
  }

  /** The region after m complete runs, each starting from what the previous one left. */
  ghost function Reruns(n: Net, sem: Semantics, lay: Layout, region: Bytes, m: nat): (r: Bytes)
    requires NetOk(n) && EpochsOk(n) && SemanticsOk(n, sem) && LayoutOk(n, true, lay)
    requires |region| == lay.regionBytes
    ensures |r| == |region|
  {
    if m == 0 then region
    else SharedRun(n, sem, lay, true, Reruns(n, sem, lay, region, m - 1), NumOps(n))
  }

  /** A persistent session can be rerun any number of times: every run gives the
      outputs that private storage gives once. */
  lemma {:induction false} RerunOutputs(n: Net, sem: Semantics, lay: Layout, region: Bytes, init: seq<Bytes>, m: nat)
    requires NetOk(n) && EpochsOk(n) && SemanticsOk(n, sem) && LayoutOk(n, true, lay)
    requires |region| == lay.regionBytes && |init| == |n.values| && Loaded(n, lay, true, region, init)
    ensures |lay.offsets| == |n.values|
    ensures Loaded(n, lay, true, Reruns(n, sem, lay, region, m), init)
    ensures forall v :: IsValue(n, v) ==> lay.offsets[v] + n.values[v].size <= lay.regionBytes
    ensures m > 0 ==> forall v :: IsValue(n, v) && n.values[v].isOutput ==>
              Get(n, lay, Reruns(n, sem, lay, region, m), v) == PrivateRun(n, sem, init, NumOps(n))[v]
    decreases m
  {
    hide NetOk, EpochsOk, SharedRun, PrivateRun, SemanticsOk, LayoutOk, Loaded;
    LayoutFacts(n, lay, true);
    if m > 0 {
      RerunOutputs(n, sem, lay, region, init, m - 1);
      var before := Reruns(n, sem, lay, region, m - 1);
      PersistentReload(n, sem, lay, before, init);
      forall v | IsValue(n, v) && n.values[v].isOutput
        ensures Get(n, lay, Reruns(n, sem, lay, region, m), v) == PrivateRun(n, sem, init, NumOps(n))[v]
      {
        OutputsPreserved(n, sem, lay, true, before, init, v);
      }
    }
  }

  function LayoutOf(plan: GraphPlan): Layout {
    Layout(plan.offsets, plan.regionBytes)
  }

  /** A plan of `graph_memory_plan_impl` is a safe layout. */
  lemma PlanIsLayout(n: Net, persistent: bool, plan: GraphPlan)
    requires NetOk(n) && EpochsOk(n) && PlanOk(n, persistent, plan)
    requires AllWellFormed(RequestsOf(n, persistent))
    ensures LayoutOk(n, persistent, LayoutOf(plan))
  {
    hide NetOk, EpochsOk, IsPeak, End, Start, IsPow2;
    var rs := RequestsOf(n, persistent);
    var lay := LayoutOf(plan);
    var offs := plan.offsets[1..];
    forall v | IsValue(n, v)
      ensures lay.offsets[v] + n.values[v].size <= lay.regionBytes
      ensures Start(n, v) < End(n, v, persistent)
    {
      assert rs[v - 1] == RequestOf(n, v, persistent) && WellFormed(rs[v - 1]);
      InsideAt(rs, offs, plan.regionBytes, v - 1);
    }
    forall v, w | IsValue(n, v) && IsValue(n, w) && v != w && Meet(n, persistent, v, w)
      ensures Apart(lay.offsets[v], n.values[v].size, lay.offsets[w], n.values[w].size)
    {
      assert rs[v - 1] == RequestOf(n, v, persistent) && rs[w - 1] == RequestOf(n, w, persistent);
      assert Overlap(rs[v - 1], rs[w - 1]) && Overlap(rs[w - 1], rs[v - 1]);
      assert offs[v - 1] == lay.offsets[v] && offs[w - 1] == lay.offsets[w];
    }
  }
}
