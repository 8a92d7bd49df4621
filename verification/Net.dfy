/** Compute graphs as values: single-assignment values, ops, dependency edges,
    epochs and lifetimes (graph/graph.h, graph/graph.c). Slot 0 of both tables
    is the unused id 0. */
module Net {
  import opened Mem
  import opened Seqs

  const MAX_VALUES: nat := 1024
  const MAX_OPS: nat := 1024
  const MAX_ARITY: nat := 16
  const MAX_RANK: nat := 6

  datatype Value = Value(dtype: nat, shape: seq<U64>, size: U64, align: U64, producer: nat,
                         isInput: bool, isOutput: bool)

  datatype Op = Op(kind: nat, inputs: seq<nat>, outputs: seq<nat>, epoch: nat)

  datatype Net = Net(values: seq<Value>, ops: seq<Op>)

  const NoValue := Value(0, [], 0, 0, 0, false, false)
  const NoOp := Op(0, [], [], 0)
  const EmptyNet := Net([NoValue], [NoOp])

  /** Value ids and op ids are 1-based. */
  predicate IsValue(n: Net, v: int) { 1 <= v < |n.values| }

  predicate IsOp(n: Net, o: int) { 1 <= o < |n.ops| }

  function NumOps(n: Net): nat { if n.ops == [] then 0 else |n.ops| - 1 }

  ghost predicate Distinct<T>(s: seq<T>) {
    forall i, j :: 0 <= i < j < |s| ==> s[i] != s[j]
  }

  /** The ids an op names exist, no output is repeated, and the producer field of
      a value names exactly the op that lists it as an output. */
  ghost predicate OpOk(n: Net, o: int)
    requires IsOp(n, o)
  {
    && |n.ops[o].inputs| <= MAX_ARITY && |n.ops[o].outputs| <= MAX_ARITY
    && (forall u :: u in n.ops[o].inputs ==> IsValue(n, u) && n.values[u].producer != o)
    && (forall u :: u in n.ops[o].outputs ==> IsValue(n, u) && n.values[u].producer == o)
    && Distinct(n.ops[o].outputs)
  }

  ghost predicate ValueOk(n: Net, v: int)
    requires IsValue(n, v)
  {
    && n.values[v].size > 0
    && IsPow2(n.values[v].align)
    && (n.values[v].producer != 0 ==>
          IsOp(n, n.values[v].producer) && v in n.ops[n.values[v].producer].outputs)
  }

  ghost predicate NetOk(n: Net) {
    && 1 <= |n.values| <= MAX_VALUES + 1
    && 1 <= |n.ops| <= MAX_OPS + 1
    && (forall o :: IsOp(n, o) ==> OpOk(n, o))
    && (forall v :: IsValue(n, v) ==> ValueOk(n, v))
  }

  /* ---- dependencies ---- */

  /** Op p produces an input of op c. */
  ghost predicate Edge(n: Net, p: int, c: int) {
    && IsOp(n, p) && IsOp(n, c)
    && exists u :: u in n.ops[c].inputs && u < |n.values| && n.values[u].producer == p
  }

  ghost predicate EdgeAt(n: Net, path: seq<nat>, i: nat)
    requires i + 1 < |path|
  {
    Edge(n, path[i], path[i + 1])
  }

  ghost predicate IsPath(n: Net, path: seq<nat>) {
    forall i :: 0 <= i < |path| - 1 ==> EdgeAt(n, path, i)
  }

  ghost predicate IsCycle(n: Net, path: seq<nat>) {
    |path| >= 2 && path[0] == path[|path| - 1] && IsPath(n, path)
  }

  ghost predicate Acyclic(n: Net) {
    forall path :: !IsCycle(n, path)
  }

  /** The epochs number the ops 0..n-1, producers before consumers. */
  ghost predicate EpochsOk(n: Net) {
    && (forall o :: IsOp(n, o) ==> n.ops[o].epoch < NumOps(n))
    && (forall a, b :: IsOp(n, a) && IsOp(n, b) && a != b ==> n.ops[a].epoch != n.ops[b].epoch)
    && (forall p, c :: Edge(n, p, c) ==> n.ops[p].epoch < n.ops[c].epoch)
  }

  lemma {:induction false} EpochsRise(n: Net, path: seq<nat>, k: nat)
    requires EpochsOk(n) && 0 < k < |path| && IsPath(n, path)
    ensures IsOp(n, path[0]) && IsOp(n, path[k]) && n.ops[path[0]].epoch < n.ops[path[k]].epoch
  {
    assert EdgeAt(n, path, k - 1);
    if k > 1 {
      EpochsRise(n, path, k - 1);
    }
  }

  /** Epochs exist only for acyclic graphs. */
  lemma EpochsAcyclic(n: Net)
    requires EpochsOk(n)
    ensures Acyclic(n)
  {
    forall path
      ensures !IsCycle(n, path)
    {
      if IsCycle(n, path) {
        EpochsRise(n, path, |path| - 1);
      }
    }
  }

  /** Op o has a predecessor in the set. */
  ghost predicate Fed(n: Net, stuck: set<nat>, o: nat) {
    exists p :: p in stuck && Edge(n, p, o)
  }

  /** Walk backwards inside a set of ops that all have a predecessor in it. */
  lemma {:induction false} WalkBack(n: Net, stuck: set<nat>, c: nat, k: nat) returns (path: seq<nat>)
    requires c in stuck && forall o :: o in stuck ==> Fed(n, stuck, o)
    ensures |path| == k + 1 && path[k] == c && IsPath(n, path)
    ensures forall i :: 0 <= i <= k ==> path[i] in stuck
    decreases k
  {
    hide Fed, Edge, EdgeAt;
    if k == 0 {
      path := [c];
    } else {
      var p := Predecessor(n, stuck, c);
      var front := WalkBack(n, stuck, p, k - 1);
      path := front + [c];
      PathPush(n, front, c);
    }
  }

  lemma Predecessor(n: Net, stuck: set<nat>, c: nat) returns (p: nat)
    requires Fed(n, stuck, c)
    ensures p in stuck && Edge(n, p, c)
  {
    hide Edge;
    p :| p in stuck && Edge(n, p, c);
  }

  lemma PathPush(n: Net, front: seq<nat>, c: nat)
    requires front != [] && IsPath(n, front) && Edge(n, front[|front| - 1], c)
    ensures IsPath(n, front + [c])
  {
    hide Edge;
    forall i | 0 <= i < |front|
      ensures EdgeAt(n, front + [c], i)
    {
      assert i < |front| - 1 ==> EdgeAt(n, front, i);
    }
  }

  lemma PathSlice(n: Net, path: seq<nat>, i: nat, j: nat)
    requires IsPath(n, path) && i <= j <= |path|
    ensures IsPath(n, path[i..j])
  {
    hide Edge;
    forall k | 0 <= k < j - i - 1
      ensures EdgeAt(n, path[i..j], k)
    {
      assert EdgeAt(n, path, i + k);
    }
  }

  ghost function OpIds(n: nat): (s: set<nat>)
    ensures forall o :: o in s <==> 1 <= o <= n
    ensures |s| == n
  {
    if n == 0 then {} else OpIds(n - 1) + {n}
  }

  /** More picks than ids: some id is picked twice. */
  lemma Pigeonhole(path: seq<nat>, n: nat) returns (i: nat, j: nat)
    requires |path| > n && forall k :: 0 <= k < |path| ==> 1 <= path[k] <= n
    ensures i < j < |path| && path[i] == path[j]
  {
    if forall a, b :: 0 <= a < b < |path| ==> path[a] != path[b] {
      DistinctBound(path, n);
      assert false;
    }
    i, j :| 0 <= i < j < |path| && path[i] == path[j];
  }

  ghost function SetOf<T>(s: seq<T>): set<T> { set x | x in s }

  lemma {:induction false} DistinctSize<T>(s: seq<T>)
    requires Distinct(s)
    ensures |SetOf(s)| == |s|
  {
    if s == [] {
      assert SetOf(s) == {};
    } else {
      var k := |s| - 1;
      DistinctSize(s[..k]);
      assert s == s[..k] + [s[k]];
      assert SetOf(s) == SetOf(s[..k]) + {s[k]};
    }
  }

  /** A list of distinct op ids is no longer than the number of ops; a complete
      one names every op. */
  lemma DistinctBound(s: seq<nat>, n: nat)
    requires Distinct(s) && forall k :: 0 <= k < |s| ==> 1 <= s[k] <= n
    ensures |s| <= n
    ensures |s| == n ==> forall o :: 1 <= o <= n ==> o in s
  {
    DistinctSize(s);
    SubsetSize(SetOf(s), OpIds(n));
    if |s| == n {
      forall o | 1 <= o <= n
        ensures o in s
      {
        assert o in OpIds(n);
      }
    }
  }

  /** A non-empty set of ops each with a predecessor in the set contains a cycle. */
  lemma StuckCycle(n: Net, stuck: set<nat>)
    requires stuck != {} && forall o :: o in stuck ==> IsOp(n, o) && Fed(n, stuck, o)
    ensures !Acyclic(n)
  {
    hide Fed, Edge;
    var c :| c in stuck;
    var path := WalkBack(n, stuck, c, NumOps(n));
    var i, j := Pigeonhole(path, NumOps(n));
    PathSlice(n, path, i, j + 1);
    assert IsCycle(n, path[i..j + 1]);
  }
}
