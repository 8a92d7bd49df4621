/** Kahn's algorithm as graph/graph.c runs it: indegrees counted per input
    position, a queue that is also the order. */
module TopoSort {
  import opened Mem
  import opened Net
  import opened Seqs

  /** Input u still waits for its producer; R holds the released values. */
  predicate Blocks(n: Net, u: nat, R: set<nat>) {
    u < |n.values| && n.values[u].producer != 0 && u !in R
  }

  /** How many of the input positions are blocked. */
  function Pending(n: Net, ins: seq<nat>, R: set<nat>): nat {
    if ins == [] then 0
    else Pending(n, ins[..|ins| - 1], R) + if Blocks(n, ins[|ins| - 1], R) then 1 else 0
  }

  lemma {:induction false} PendingAppend(n: Net, a: seq<nat>, b: seq<nat>, R: set<nat>)
    ensures Pending(n, a + b, R) == Pending(n, a, R) + Pending(n, b, R)
  {
    if b == [] {
      assert a + b == a;
    } else {
      assert (a + b)[..|a + b| - 1] == a + b[..|b| - 1];
      PendingAppend(n, a, b[..|b| - 1], R);
    }
  }

  lemma {:induction false} PendingZero(n: Net, ins: seq<nat>, R: set<nat>)
    ensures Pending(n, ins, R) == 0 <==> forall u :: u in ins ==> !Blocks(n, u, R)
  {
    if ins != [] {
      var k := |ins| - 1;
      PendingZero(n, ins[..k], R);
      assert ins == ins[..k] + [ins[k]];
    }
  }

  lemma {:induction false} PendingUnchanged(n: Net, ins: seq<nat>, R: set<nat>, S: set<nat>)
    requires forall u :: u in ins ==> Blocks(n, u, R) == Blocks(n, u, S)
    ensures Pending(n, ins, R) == Pending(n, ins, S)
  {
    if ins != [] {
      PendingUnchanged(n, ins[..|ins| - 1], R, S);
    }
  }

  lemma PendingSplit(n: Net, ins: seq<nat>, j: nat, R: set<nat>)
    requires j < |ins|
    ensures Pending(n, ins[j..], R) == Pending(n, ins[j + 1..], R) + if Blocks(n, ins[j], R) then 1 else 0
    ensures Pending(n, ins[..j + 1], R) == Pending(n, ins[..j], R) + if Blocks(n, ins[j], R) then 1 else 0
  {
    assert ins[j..] == [ins[j]] + ins[j + 1..];
    PendingAppend(n, [ins[j]], ins[j + 1..], R);
    assert [ins[j]][..0] == [];
    assert ins[..j + 1][..j] == ins[..j];
  }

  lemma InputOk(n: Net, o: int, i: nat)
    requires NetOk(n) && IsOp(n, o) && i < |n.ops[o].inputs|
    ensures IsValue(n, n.ops[o].inputs[i])
    ensures n.values[n.ops[o].inputs[i]].producer != o
  {
    assert OpOk(n, o);
    assert n.ops[o].inputs[i] in n.ops[o].inputs;
  }

  lemma OutputOk(n: Net, o: int, i: nat)
    requires NetOk(n) && IsOp(n, o) && i < |n.ops[o].outputs|
    ensures IsValue(n, n.ops[o].outputs[i])
    ensures n.values[n.ops[o].outputs[i]].producer == o
    ensures n.ops[o].outputs[i] !in n.ops[o].outputs[..i]
  {
    assert OpOk(n, o);
    assert n.ops[o].outputs[i] in n.ops[o].outputs;
  }

  /** Queued ops are distinct, and the producers of their inputs stand before them. */
  ghost predicate QueueOk(n: Net, q: seq<nat>) {
    && Distinct(q)
    && (forall k :: 0 <= k < |q| ==> IsOp(n, q[k]))
    && (forall k :: 0 <= k < |q| ==> FedBy(n, q[k], q[..k]))
  }

  ghost predicate FedBy(n: Net, o: int, done: seq<nat>)
    requires IsOp(n, o)
  {
    forall u :: u in n.ops[o].inputs && u < |n.values| && n.values[u].producer != 0 ==>
      n.values[u].producer in done
  }

  /** Only outputs of finished ops are released. */
  ghost predicate ReleasedBy(n: Net, R: set<nat>, done: seq<nat>) {
    forall u :: u in R ==> u < |n.values| && n.values[u].producer in done
  }

  /** The counters match the released set, and the queue holds exactly the ops at zero. */
  ghost predicate Counted(n: Net, indegree: seq<nat>, q: seq<nat>, R: set<nat>) {
    && |indegree| == |n.ops|
    && (forall c :: IsOp(n, c) ==> indegree[c] == Pending(n, n.ops[c].inputs, R))
    && (forall c :: IsOp(n, c) ==> (indegree[c] == 0 <==> c in q))
  }

  /** An op that waits for nothing may join the queue. */
  lemma QueuePush(n: Net, q: seq<nat>, c: nat, R: set<nat>, head: nat)
    requires QueueOk(n, q) && IsOp(n, c) && c !in q && head <= |q|
    requires ReleasedBy(n, R, q[..head]) && Pending(n, n.ops[c].inputs, R) == 0
    ensures QueueOk(n, q + [c]) && |q| < NumOps(n)
  {
    PendingZero(n, n.ops[c].inputs, R);
    var t := q + [c];
    DistinctBound(t, NumOps(n));
    forall k | 0 <= k < |t|
      ensures FedBy(n, t[k], t[..k])
    {
      if k < |q| {
        assert FedBy(n, q[k], q[..k]);
        assert t[..k] == q[..k];
      } else {
        assert t[..k] == q;
        forall u | u in n.ops[c].inputs && u < |n.values| && n.values[u].producer != 0
          ensures n.values[u].producer in q
        {
          assert u in R;
          assert n.values[u].producer in q[..head];
        }
      }
    }
  }

  /** The working arrays of the sort. */
  class Kahn {
    const indegree: array<nat>
    const queue: array<nat>
    var tail: nat

    ghost predicate Valid(n: Net)
      reads this
    {
      1 <= |n.ops| && tail <= queue.Length && indegree != queue && indegree.Length == |n.ops| && queue.Length == NumOps(n)
    }

    constructor (n: Net)
      requires NetOk(n)
      ensures Valid(n) && fresh(indegree) && fresh(queue) && tail == 0
      ensures forall c :: 0 <= c < |n.ops| ==> indegree[c] == 0
    {
      indegree := new nat[|n.ops|](_ => 0);
      queue := new nat[|n.ops| - 1](_ => 0);
      tail := 0;
    }

    ghost function Queue(): seq<nat>
      requires tail <= queue.Length
      reads this, queue
    {
      queue[..tail]
    }

    /** Count the blocked inputs of every op. */
    method CountIndegrees(n: Net)
      requires NetOk(n) && Valid(n)
      requires forall c :: 0 <= c < |n.ops| ==> indegree[c] == 0
      modifies indegree
      ensures forall c :: IsOp(n, c) ==> indegree[c] == Pending(n, n.ops[c].inputs, {})
    {
      hide NetOk, Pending;
      for o := 1 to |n.ops|
        invariant forall c :: o <= c < |n.ops| ==> indegree[c] == 0
        invariant forall c :: 1 <= c < o ==> indegree[c] == Pending(n, n.ops[c].inputs, {})
      {
        CountInputs(n, o);
      }
    }

    method CountInputs(n: Net, o: nat)
      requires NetOk(n) && Valid(n) && IsOp(n, o) && indegree[o] == 0
      modifies indegree
      ensures indegree[o] == Pending(n, n.ops[o].inputs, {})
      ensures forall c :: 0 <= c < |n.ops| && c != o ==> indegree[c] == old(indegree[c])
    {
      hide NetOk;
      var ins := n.ops[o].inputs;
      for i := 0 to |ins|
        invariant indegree[o] == Pending(n, ins[..i], {})
        invariant forall c :: 0 <= c < |n.ops| && c != o ==> indegree[c] == old(indegree[c])
      {
        PendingSplit(n, ins, i, {});
        InputOk(n, o, i);
        var producer := n.values[ins[i]].producer;
        if producer != 0 && producer != o {
          indegree[o] := indegree[o] + 1;
        }
      }
      assert ins[..|ins|] == ins;
    }

    /** Queue every op that waits for nothing. */
    method QueueRoots(n: Net)
      requires NetOk(n) && Valid(n) && tail == 0
      requires forall c :: IsOp(n, c) ==> indegree[c] == Pending(n, n.ops[c].inputs, {})
      modifies this`tail, queue
      ensures Valid(n) && QueueOk(n, Queue()) && Counted(n, indegree[..], Queue(), {})
    {
      hide NetOk, Pending;
      for o := 1 to |n.ops|
        invariant Valid(n) && QueueOk(n, Queue())
        invariant forall c :: 1 <= c < o ==> (indegree[c] == 0 <==> c in Queue())
        invariant forall c :: c in Queue() ==> c < o
      {
        if indegree[o] == 0 {
          ghost var q := Queue();
          QueuePush(n, q, o, {}, 0);
          queue[tail] := o;
          tail := tail + 1;
          assert Queue() == q + [o];
        }
      }
    }

    /** Release value v to op c: one decrement per input position that reads it. */
    method Relax(n: Net, c: nat, v: nat, ghost R: set<nat>, ghost head: nat)
      requires NetOk(n) && Valid(n) && IsOp(n, c)
      requires indegree[c] == Pending(n, n.ops[c].inputs, R)
      requires indegree[c] == 0 <==> c in Queue()
      requires QueueOk(n, Queue()) && head <= tail && ReleasedBy(n, R + {v}, Queue()[..head])
      requires Blocks(n, v, R)
      modifies this`tail, indegree, queue
      ensures Valid(n) && QueueOk(n, Queue())
      ensures indegree[c] == Pending(n, n.ops[c].inputs, R + {v})
      ensures indegree[c] == 0 <==> c in Queue()
      ensures forall d :: 0 <= d < |n.ops| && d != c ==> indegree[d] == old(indegree[d])
      ensures Queue() == old(Queue()) || Queue() == old(Queue()) + [c]
    {
      hide NetOk, QueueOk, ReleasedBy;
      var ins := n.ops[c].inputs;
      ghost var q := Queue();
      assert ins[0..] == ins && ins[..0] == [];
      for j := 0 to |ins|
        invariant Valid(n) && Queue() == if indegree[c] == 0 && c !in q then q + [c] else q
        invariant c in q ==> indegree[c] == 0
        invariant indegree[c] == Pending(n, ins[..j], R + {v}) + Pending(n, ins[j..], R)
        invariant forall d :: 0 <= d < |n.ops| && d != c ==> indegree[d] == old(indegree[d])
      {
        PendingSplit(n, ins, j, R);
        PendingSplit(n, ins, j, R + {v});
        if ins[j] == v {
          indegree[c] := indegree[c] - 1;
          if indegree[c] == 0 {
            RelaxedToZero(n, ins, j, v, R);
            QueuePush(n, q, c, R + {v}, head);
            queue[tail] := c;
            tail := tail + 1;
            assert Queue() == q + [c];
          }
        }
      }
      assert ins[..|ins|] == ins;
      if indegree[c] == 0 && c !in q {
        QueuePush(n, q, c, R + {v}, head);
      }
    }
  
    /** Release value v, an output of the op o just taken from the queue, to all other ops. */
    method ReleaseValue(n: Net, o: nat, v: nat, ghost R: set<nat>, ghost head: nat)
      requires NetOk(n) && Valid(n) && IsOp(n, o) && IsValue(n, v) && n.values[v].producer == o
      requires v !in R && 0 < head <= tail && Queue()[head - 1] == o
      requires QueueOk(n, Queue()) && Counted(n, indegree[..], Queue(), R)
      requires ReleasedBy(n, R, Queue()[..head])
      modifies this`tail, indegree, queue
      ensures Valid(n) && old(tail) <= tail && Queue()[..head] == old(Queue()[..head])
      ensures QueueOk(n, Queue()) && Counted(n, indegree[..], Queue(), R + {v})
      ensures ReleasedBy(n, R + {v}, Queue()[..head])
    {
      hide NetOk, QueueOk, Pending;
      ghost var q0 := Queue();
      assert q0[..head][head - 1] == o;
      for c := 1 to |n.ops|
        invariant Valid(n) && QueueOk(n, Queue()) && old(tail) <= tail && Queue()[..head] == q0[..head]
        invariant forall d :: 1 <= d < c ==> indegree[d] == Pending(n, n.ops[d].inputs, R + {v})
        invariant forall d :: c <= d < |n.ops| ==> indegree[d] == Pending(n, n.ops[d].inputs, R)
        invariant forall d :: IsOp(n, d) ==> (indegree[d] == 0 <==> d in Queue())
      {
        if c == o {
          OwnOutputNotRead(n, o, v, R);
        } else {
          ghost var q := Queue();
          Relax(n, c, v, R, head);
          assert Queue()[..head] == q[..head];
          assert forall d :: d != c ==> (d in Queue() <==> d in q);
        }
      }
    }

    /** Take op o, the queue's element before head, and release its outputs. */
    method Process(n: Net, o: nat, ghost R: set<nat>, ghost head: nat) returns (ghost S: set<nat>)
      requires NetOk(n) && Valid(n) && IsOp(n, o)
      requires 0 < head <= tail && Queue()[head - 1] == o
      requires QueueOk(n, Queue()) && Counted(n, indegree[..], Queue(), R)
      requires ReleasedBy(n, R, Queue()[..head - 1])
      modifies this`tail, indegree, queue
      ensures Valid(n) && old(tail) <= tail && Queue()[..head] == old(Queue()[..head])
      ensures QueueOk(n, Queue()) && Counted(n, indegree[..], Queue(), S)
      ensures ReleasedBy(n, S, Queue()[..head])
      ensures R <= S && forall u :: u in n.ops[o].outputs ==> u in S
    {
      hide NetOk, QueueOk, Counted, FedBy;
      S := R;
      ghost var q0 := Queue();
      ReleasedByMore(n, R, q0[..head - 1], q0[..head]);
      OwnNotReleased(n, o, R, q0, head);
      var outs := n.ops[o].outputs;
      for i := 0 to |outs|
        invariant Valid(n) && old(tail) <= tail && Queue()[..head] == q0[..head]
        invariant QueueOk(n, Queue()) && Counted(n, indegree[..], Queue(), S)
        invariant ReleasedBy(n, S, Queue()[..head])
        invariant R <= S && (forall u :: u in outs[..i] ==> u in S)
        invariant forall u :: u in S ==> u in R || u in outs[..i]
      {
        OutputOk(n, o, i);
        assert Queue()[head - 1] == Queue()[..head][head - 1];
        ReleaseValue(n, o, outs[i], S, head);
        S := S + {outs[i]};
        assert outs[..i + 1] == outs[..i] + [outs[i]];
      }
      assert outs[..|outs|] == outs;
    }

    /** The main loop; `order[..processed]` always equals `queue[..head]`. */
    method Drain(n: Net, order: array<nat>) returns (processed: nat, ghost R: set<nat>)
      requires NetOk(n) && Valid(n) && order != indegree && order != queue && order.Length == queue.Length
      requires QueueOk(n, Queue()) && Counted(n, indegree[..], Queue(), {})
      modifies this`tail, indegree, queue, order
      ensures Valid(n) && QueueOk(n, Queue()) && Counted(n, indegree[..], Queue(), R)
      ensures processed == tail && order[..processed] == Queue()
      ensures forall o, u :: o in Queue() && IsOp(n, o) && u in n.ops[o].outputs ==> u in R
    {
      hide NetOk, Counted, FedBy, ReleasedBy;
      var head := 0;
      processed := 0;
      R := {};
      NoneReleased(n);
      while head < tail
        invariant Valid(n) && head <= tail && processed == head
        invariant QueueOk(n, Queue()) && Counted(n, indegree[..], Queue(), R)
        invariant ReleasedBy(n, R, Queue()[..head])
        invariant order[..processed] == Queue()[..head]
        invariant forall o, u :: o in Queue()[..head] && IsOp(n, o) && u in n.ops[o].outputs ==> u in R
        decreases queue.Length - head
      {
        var o := queue[head];
        ghost var q := Queue();
        assert q[head] == o && q[..head + 1] == q[..head] + [o];
        head := head + 1;
        order[processed] := o;
        processed := processed + 1;
        R := Process(n, o, R, head);
        assert order[..processed] == q[..head];
      }
      assert Queue()[..head] == Queue();
    }
  }

  lemma NoneReleased(n: Net)
    ensures ReleasedBy(n, {}, [])
  {
  }

  lemma ReleasedByMore(n: Net, R: set<nat>, done: seq<nat>, more: seq<nat>)
    requires ReleasedBy(n, R, done) && forall x :: x in done ==> x in more
    ensures ReleasedBy(n, R, more)
  {
  }

  /** The outputs of the op just taken have not been released yet. */
  lemma OwnNotReleased(n: Net, o: nat, R: set<nat>, q: seq<nat>, head: nat)
    requires NetOk(n) && IsOp(n, o) && 0 < head <= |q| && q[head - 1] == o
    requires QueueOk(n, q) && ReleasedBy(n, R, q[..head - 1])
    ensures forall i :: 0 <= i < |n.ops[o].outputs| ==> n.ops[o].outputs[i] !in R
  {
    forall i | 0 <= i < |n.ops[o].outputs|
      ensures n.ops[o].outputs[i] !in R
    {
      OutputOk(n, o, i);
      assert o !in q[..head - 1];
    }
  }

  lemma OwnOutputNotRead(n: Net, o: nat, v: nat, R: set<nat>)
    requires NetOk(n) && IsOp(n, o) && IsValue(n, v) && n.values[v].producer == o
    ensures Pending(n, n.ops[o].inputs, R + {v}) == Pending(n, n.ops[o].inputs, R)
  {
    assert OpOk(n, o);
    PendingUnchanged(n, n.ops[o].inputs, R + {v}, R);
  }

  lemma RelaxedToZero(n: Net, ins: seq<nat>, j: nat, v: nat, R: set<nat>)
    requires j < |ins|
    requires Pending(n, ins[..j + 1], R + {v}) + Pending(n, ins[j + 1..], R) == 0
    ensures Pending(n, ins, R + {v}) == 0
  {
    PendingZero(n, ins[..j + 1], R + {v});
    PendingZero(n, ins[j + 1..], R);
    assert ins == ins[..j + 1] + ins[j + 1..];
    PendingZero(n, ins, R + {v});
  }

  /* ---- what the drained queue means ---- */

  /** A complete order is an epoch numbering. */
  lemma OrderEpochs(n: Net, order: seq<nat>, ops: seq<Op>)
    requires NetOk(n) && QueueOk(n, order) && |order| == NumOps(n) && |ops| == |n.ops|
    requires forall o :: IsOp(n, o) ==> ops[o] == n.ops[o].(epoch := ops[o].epoch)
    requires forall i :: 0 <= i < |order| ==> ops[order[i]].epoch == i
    ensures EpochsOk(n.(ops := ops))
  {
    hide NetOk;
    var m := n.(ops := ops);
    DistinctBound(order, NumOps(n));
    forall o | IsOp(m, o)
      ensures ops[o].epoch < |order| && order[ops[o].epoch] == o
    {
      assert o in order;
      var k :| 0 <= k < |order| && order[k] == o;
    }
    forall p, c | Edge(m, p, c)
      ensures ops[p].epoch < ops[c].epoch
    {
      var k := ops[c].epoch;
      var u :| u in m.ops[c].inputs && u < |m.values| && m.values[u].producer == p;
      assert FedBy(n, order[k], order[..k]);
      var i :| 0 <= i < k && order[i] == p;
    }
  }

  ghost function Unqueued(n: Net, q: seq<nat>): set<nat> {
    set o | o in OpIds(NumOps(n)) && o !in q
  }

  /** An op that never reached zero still has an unfinished producer. */
  lemma StuckFed(n: Net, indegree: seq<nat>, q: seq<nat>, R: set<nat>, c: nat)
    requires NetOk(n) && Counted(n, indegree, q, R) && IsOp(n, c) && c !in q
    requires forall o, u :: o in q && IsOp(n, o) && u in n.ops[o].outputs ==> u in R
    ensures Fed(n, Unqueued(n, q), c)
  {
    PendingZero(n, n.ops[c].inputs, R);
    var u :| u in n.ops[c].inputs && Blocks(n, u, R);
    assert OpOk(n, c) && ValueOk(n, u);
    assert Edge(n, n.values[u].producer, c);
  }

  /** An incomplete order leaves a cycle. */
  lemma IncompleteCycle(n: Net, indegree: seq<nat>, q: seq<nat>, R: set<nat>)
    requires NetOk(n) && QueueOk(n, q) && Counted(n, indegree, q, R) && |q| != NumOps(n)
    requires forall o, u :: o in q && IsOp(n, o) && u in n.ops[o].outputs ==> u in R
    ensures !Acyclic(n)
  {
    hide NetOk, Counted, FedBy, Acyclic, Edge;
    var stuck := Unqueued(n, q);
    forall o | o in stuck
      ensures IsOp(n, o) && Fed(n, stuck, o)
    {
      StuckFed(n, indegree, q, R, o);
    }
    if stuck == {} {
      DistinctSize(q);
      DistinctBound(q, NumOps(n));
      forall o | o in OpIds(NumOps(n))
        ensures o in SetOf(q)
      {
        assert o !in stuck;
      }
      SubsetSize(OpIds(NumOps(n)), SetOf(q));
    }
    StuckCycle(n, stuck);
  }
}
