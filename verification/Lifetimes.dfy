/** Lifetimes of values in epochs (graph/graph.c) and the requests they become. */
module Lifetimes {
  import opened Mem
  import opened Net
  import opened Planner

  predicate Reads(n: Net, o: int, v: nat) {
    IsOp(n, o) && v in n.ops[o].inputs
  }

  /** Some op below k reads v. */
  predicate Used(n: Net, v: nat, k: nat)
    requires k <= |n.ops|
  {
    k > 0 && (Used(n, v, k - 1) || Reads(n, k - 1, v))
  }

  /** The largest epoch among the ops below k that read v. */
  function LastUse(n: Net, v: nat, k: nat): nat
    requires k <= |n.ops|
  {
    if k == 0 then 0
    else
      var last := LastUse(n, v, k - 1);
      if Reads(n, k - 1, v) && n.ops[k - 1].epoch > last then n.ops[k - 1].epoch else last
  }

  function Start(n: Net, v: nat): nat
    requires v < |n.values|
  {
    if IsOp(n, n.values[v].producer) then n.ops[n.values[v].producer].epoch else 0
  }

  /** First epoch after the lifetime; `persistent` keeps values without producer alive. */
  function End(n: Net, v: nat, persistent: bool): nat
    requires v < |n.values|
  {
    if persistent && n.values[v].producer == 0 then NumOps(n)
    else if n.values[v].isOutput then NumOps(n)
    else if Used(n, v, |n.ops|) then LastUse(n, v, |n.ops|) + 1
    else Start(n, v) + 1
  }

  lemma {:induction false} LastUseCovers(n: Net, v: nat, k: nat, o: nat)
    requires o < k <= |n.ops| && Reads(n, o, v)
    ensures Used(n, v, k) && n.ops[o].epoch <= LastUse(n, v, k)
  {
    if o < k - 1 {
      LastUseCovers(n, v, k - 1, o);
    }
  }

  lemma {:induction false} LastUseAttained(n: Net, v: nat, k: nat) returns (o: nat)
    requires k <= |n.ops| && Used(n, v, k)
    ensures o < k && Reads(n, o, v) && n.ops[o].epoch == LastUse(n, v, k)
  {
    if Used(n, v, k - 1) {
      o := LastUseAttained(n, v, k - 1);
      if Reads(n, k - 1, v) && n.ops[k - 1].epoch > LastUse(n, v, k - 1) {
        o := k - 1;
      }
    } else {
      o := k - 1;
      NotUsedZero(n, v, k - 1);
    }
  }

  lemma {:induction false} NotUsedZero(n: Net, v: nat, k: nat)
    requires k <= |n.ops| && !Used(n, v, k)
    ensures LastUse(n, v, k) == 0
  {
    if k > 0 {
      NotUsedZero(n, v, k - 1);
    }
  }

  /** Every read of a value falls into its lifetime, after the epoch that produced it. */
  lemma ReadInLifetime(n: Net, o: nat, v: nat, persistent: bool)
    requires NetOk(n) && EpochsOk(n) && Reads(n, o, v)
    ensures IsValue(n, v)
    ensures Start(n, v) <= n.ops[o].epoch < End(n, v, persistent)
    ensures n.values[v].producer != 0 ==> Start(n, v) < n.ops[o].epoch
  {
    assert OpOk(n, o);
    assert ValueOk(n, v);
    LastUseCovers(n, v, |n.ops|, o);
    if n.values[v].producer != 0 {
      assert Edge(n, n.values[v].producer, o);
    }
  }

  /** A lifetime is empty only in a graph without ops, for a value kept to the end. */
  lemma LifetimeNonEmpty(n: Net, v: nat, persistent: bool)
    requires NetOk(n) && EpochsOk(n) && IsValue(n, v)
    ensures Start(n, v) < End(n, v, persistent) <==>
            NumOps(n) > 0 || !(n.values[v].isOutput || (persistent && n.values[v].producer == 0))
    ensures End(n, v, persistent) <= NumOps(n) + 1
    ensures Start(n, v) <= NumOps(n)
    ensures NumOps(n) > 0 ==> End(n, v, persistent) <= NumOps(n)
  {
    assert ValueOk(n, v);
    if Used(n, v, |n.ops|) {
      var o := LastUseAttained(n, v, |n.ops|);
      ReadInLifetime(n, o, v, persistent);
    }
  }

  /** The planner request of value v. */
  ghost function RequestOf(n: Net, v: nat, persistent: bool): (r: Request)
    requires NetOk(n) && EpochsOk(n) && IsValue(n, v)
    ensures r.start == Start(n, v) && r.end == End(n, v, persistent)
    ensures r.size == n.values[v].size && r.align == n.values[v].align && !r.pinned
  {
    LifetimeNonEmpty(n, v, persistent);
    Request(n.values[v].size, n.values[v].align, Start(n, v), End(n, v, persistent), false)
  }

  ghost function RequestsOf(n: Net, persistent: bool): (rs: seq<Request>)
    requires NetOk(n) && EpochsOk(n)
    ensures |rs| == |n.values| - 1
    ensures forall i :: 0 <= i < |rs| ==> rs[i] == RequestOf(n, i + 1, persistent)
  {
    seq(|n.values| - 1, i requires 0 <= i < |n.values| - 1 => RequestOf(n, i + 1, persistent))
  }
}
