/** The planner object and the imperative plan builder of memory/planner.c,
    proved to compute the sweep of module Planner. */
module PlannerBuild {
  import opened Mem
  import opened Planner
  import opened PlannerTheorems

  const NIL: int := -1

  /** `free_node_t`; `next` is the pool index of the successor. */
  datatype FreeNode = FreeNode(off: U64, size: U64, next: int)

  lemma UpdateIsSplice(r: seq<Range>, p: nat, m: Range)
    requires p < |r|
    ensures r[p := m] == Splice(r, p, p + 1, m)
  {
  }

  function InsertAt<T>(s: seq<T>, p: nat, x: T): seq<T>
    requires p <= |s|
  {
    s[..p] + [x] + s[p..]
  }

  lemma InsertAtIndex<T>(s: seq<T>, p: nat, x: T)
    requires p <= |s|
    ensures |InsertAt(s, p, x)| == |s| + 1 && InsertAt(s, p, x)[p] == x
    ensures forall i :: 0 <= i < p ==> InsertAt(s, p, x)[i] == s[i]
    ensures forall i :: p < i <= |s| ==> InsertAt(s, p, x)[i] == s[i - 1]
  {
  }

  lemma InsertIsSplice(r: seq<Range>, p: nat, m: Range)
    requires p <= |r|
    ensures InsertAt(r, p, m) == Splice(r, p, p, m)
  {
  }

  lemma UnlinkIsSplice(r: seq<Range>, p: nat, m: Range, t: seq<Range>)
    requires 0 < p < |r| == |t|
    requires forall k :: 0 <= k < |r| ==> t[k] == if k == p - 1 then m else r[k]
    ensures t[..p] + t[p + 1..] == Splice(r, p - 1, p + 1, m)
  {
  }

  /** The sorted free list, linked through a pool of nodes that are handed out once. */
  class FreeList {
    const pool: array<FreeNode>
    var used: nat
    var head: int
    ghost var nodes: seq<nat>     // pool indices in list order
    ghost var ranges: seq<Range>  // what those nodes hold

    ghost predicate Valid()
      reads this, pool
    {
      && pool.Length == POOL_CAP
      && used <= POOL_CAP
      && |ranges| == |nodes|
      && head == NodeAt(0)
      && (forall i :: 0 <= i < |nodes| ==> nodes[i] < used)
      && (forall i, j :: 0 <= i < j < |nodes| ==> nodes[i] != nodes[j])
      && (forall i {:trigger pool[nodes[i]]} :: 0 <= i < |nodes| ==>
            pool[nodes[i]] == FreeNode(ranges[i].off, ranges[i].size, NodeAt(i + 1)))
    }

    /** Pool index of the p-th node of the list. */
    ghost function NodeAt(p: int): int
      reads this
    {
      if 0 <= p < |nodes| then nodes[p] else NIL
    }

    ghost function State(): FreeState
      reads this
    {
      FreeState(ranges, used)
    }

    constructor ()
      ensures Valid() && fresh(pool) && State() == FreeState([], 0)
    {
      pool := new FreeNode[POOL_CAP](_ => FreeNode(0, 0, NIL));
      used := 0;
      head := NIL;
      nodes, ranges := [], [];
    }

    /** Walk to the first node that does not start before off. */
    method Locate(off: U64) returns (prev: int, cur: int, ghost p: nat)
      requires Valid()
      ensures p == Position(ranges, off, 0)
      ensures cur == NodeAt(p) && prev == NodeAt(p - 1)
    {
      prev, cur, p := NIL, head, 0;
      while cur != NIL && pool[cur].off < off
        invariant p <= |nodes|
        invariant cur == NodeAt(p) && prev == NodeAt(p - 1)
        invariant p > 0 ==> ranges[p - 1].off < off
        invariant Position(ranges, off, 0) == Position(ranges, off, p)
        decreases |nodes| - p
      {
        prev := cur;
        cur := pool[cur].next;
        p := p + 1;
      }
    }

    /** Unlink node p, whose predecessor is prev. */
    method Unlink(prev: int, node: int, ghost p: nat)
      requires Valid() && p < |nodes| && node == nodes[p] && prev == NodeAt(p - 1)
      modifies this, pool
      ensures Valid() && used == old(used)
      ensures nodes == old(nodes[..p] + nodes[p + 1..])
      ensures ranges == old(ranges[..p] + ranges[p + 1..])
    {
      if prev != NIL {
        pool[prev] := pool[prev].(next := pool[node].next);
      } else {
        head := pool[node].next;
      }
      nodes, ranges := nodes[..p] + nodes[p + 1..], ranges[..p] + ranges[p + 1..];
    }

    /** Link a node from the pool in front of node p, whose predecessor is prev. */
    method Link(prev: int, cur: int, ghost p: nat, off: U64, size: U64)
      requires Valid() && p <= |nodes| && cur == NodeAt(p) && prev == NodeAt(p - 1)
      requires used < POOL_CAP
      modifies this, pool
      ensures Valid() && used == old(used) + 1
      ensures ranges == InsertAt(old(ranges), p, Range(off, size))
    {
      hide InsertAt;
      InsertAtIndex(nodes, p, used);
      InsertAtIndex(ranges, p, Range(off, size));
      var node := used;
      used := used + 1;
      pool[node] := FreeNode(off, size, cur);
      if prev != NIL {
        pool[prev] := pool[prev].(next := node);
      } else {
        head := node;
      }
      nodes, ranges := InsertAt(nodes, p, node), InsertAt(ranges, p, Range(off, size));
    }

    /** Overwrite the range of node p. */
    method Resize(node: int, ghost p: nat, off: U64, size: U64)
      requires Valid() && p < |nodes| && node == nodes[p]
      modifies this`ranges, pool
      ensures Valid() && ranges == old(ranges)[p := Range(off, size)]
    {
      pool[node] := pool[node].(off := off, size := size);
      ranges := ranges[p := Range(off, size)];
    }

    /** `free_list_insert`. */
    method Insert(off: U64, size: U64)
      requires Valid()
      modifies this, pool
      ensures Valid() && State() == FreeInsert(old(State()), off, size)
    {
      hide Add64, Position, Splice;
      var prev, cur, p := Locate(off);
      ghost var r := ranges;
      if prev != NIL && Add64(pool[prev].off, pool[prev].size) == off {
        Resize(prev, p - 1, pool[prev].off, Add64(pool[prev].size, size));
        UpdateIsSplice(r, p - 1, ranges[p - 1]);
        if cur != NIL && Add64(off, size) == pool[cur].off {
          Resize(prev, p - 1, pool[prev].off, Add64(pool[prev].size, pool[cur].size));
          UnlinkIsSplice(r, p, ranges[p - 1], ranges);
          Unlink(prev, cur, p);
        }
      } else if cur != NIL && Add64(off, size) == pool[cur].off {
        Resize(cur, p, off, Add64(pool[cur].size, size));
        UpdateIsSplice(r, p, ranges[p]);
      } else if used < POOL_CAP {
        Link(prev, cur, p, off, size);
        InsertIsSplice(r, p, Range(off, size));
      }
    }

    /** The best-fit scan. */
    method Search(size: U64, align: U64) returns (best: int, bestPrev: int, ghost b: int)
      requires Valid() && align != 0
      ensures b == BestFit(ranges, size, align, 0, -1)
      ensures best == NodeAt(b) && bestPrev == NodeAt(b - 1)
    {
      best, bestPrev, b := NIL, NIL, -1;
      var cur, prev := head, NIL;
      ghost var i := 0;
      while cur != NIL
        invariant 0 <= i <= |nodes| && -1 <= b < i
        invariant cur == NodeAt(i) && prev == NodeAt(i - 1)
        invariant b >= 0 ==> Fits(ranges[b], size, align)
        invariant best == NodeAt(b) && bestPrev == NodeAt(b - 1)
        invariant BestFit(ranges, size, align, 0, -1) == BestFit(ranges, size, align, i, b)
        decreases |nodes| - i
      {
        var aligned := AlignUp(pool[cur].off, align);
        if pool[cur].size >= Add64(Sub64(aligned, pool[cur].off), size)
           && (best == NIL || pool[cur].size < pool[best].size) {
          best, bestPrev := cur, prev;
          b := i;
        }
        prev := cur;
        cur := pool[cur].next;
        i := i + 1;
      }
    }

    /** The best-fit search and the removal of the chosen range. */
    method Take(size: U64, align: U64) returns (found: bool, off: U64)
      requires Valid() && align != 0
      modifies this, pool
      ensures Valid()
      ensures var was := old(State());
              var b := BestFit(was.ranges, size, align, 0, -1);
              && found == (b >= 0)
              && (found ==> off == AlignUp(was.ranges[b].off, align))
              && State() == if b >= 0 then TakeRange(was, b, size, align) else was
    {
      hide FreeInsert, BestFit, AlignUp, Position;
      var best, bestPrev, b := Search(size, align);
      found, off := best != NIL, 0;
      if best == NIL {
        return;
      }
      var node := pool[best];
      off := AlignUp(node.off, align);
      var leftPad := Sub64(off, node.off);
      var right := Sub64(Sub64(node.size, leftPad), size);
      ghost var was := State();
      Unlink(bestPrev, best, b);
      assert State() == FreeState(was.ranges[..b] + was.ranges[b + 1..], was.used);
      InsertNonEmptyRange(node.off, leftPad);
      InsertNonEmptyRange(Add64(off, size), right);
    }

    method InsertNonEmptyRange(off: U64, size: U64)
      requires Valid()
      modifies this, pool
      ensures Valid() && State() == InsertNonEmpty(old(State()), off, size)
    {
      if size > 0 {
        Insert(off, size);
      }
    }
  }

  /** `qsort` with `alloc_cmp`; callers rely on the contract alone. */
  method SortByCmp(es: seq<SortEntry>) returns (sorted: seq<SortEntry>)
    ensures multiset(sorted) == multiset(es)
    ensures SortedRequests(Requests(sorted))
  {
    hide AllocCmp, SortedRequests;
    EmptySorted();
    sorted := [];
    for i := 0 to |es|
      invariant multiset(sorted) == multiset(es[..i])
      invariant SortedRequests(Requests(sorted))
    {
      var k := |sorted|;
      while k > 0 && AllocCmp(sorted[k - 1].alloc, es[i].alloc) > 0
        invariant 0 <= k <= |sorted|
        invariant k < |sorted| ==> AllocCmp(sorted[k].alloc, es[i].alloc) > 0
      {
        k := k - 1;
      }
      if k < |sorted| {
        AllocCmpTransitive(es[i].alloc, sorted[k].alloc, sorted[k].alloc);
      }
      InsertSorted(Requests(sorted), k, es[i].alloc);
      ghost var was := sorted;
      sorted := sorted[..k] + [es[i]] + sorted[k..];
      assert Requests(sorted) == Requests(was)[..k] + [es[i].alloc] + Requests(was)[k..];
      assert es[..i + 1] == es[..i] + [es[i]];
      assert was == was[..k] + was[k..];
    }
    assert es[..|es|] == es;
  }

  lemma EmptySorted()
    ensures SortedRequests([])
  {
  }

  /** Release every live record that ended by start into the free list. */
  method ReleaseEnded(free: FreeList, live: array<Live>, liveCount: nat, start: U64) returns (count: nat)
    requires free.Valid() && liveCount <= live.Length
    modifies free, free.pool, live
    ensures free.Valid() && count <= liveCount
    ensures (free.State(), live[..count]) == Release(old(free.State()), old(live[..liveCount]), 0, start)
  {
    count := liveCount;
    ghost var goal := Release(free.State(), live[..count], 0, start);
    var j := 0;
    while j < count
      invariant free.Valid()
      invariant j <= count <= liveCount
      invariant goal == Release(free.State(), live[..count], j, start)
      decreases count - j
    {
      if live[j].end <= start {
        free.Insert(live[j].off, live[j].size);
        ghost var before := live[..count];
        count := count - 1;
        live[j] := live[count];
        assert live[..count] == RemoveSwap(before, j);
      } else {
        j := j + 1;
      }
    }
  }

  method SumLive(live: array<Live>, liveCount: nat) returns (bytes: U64)
    requires liveCount <= live.Length
    ensures bytes == LiveBytes(live[..liveCount])
  {
    bytes := 0;
    for j := 0 to liveCount
      invariant bytes == LiveBytes(live[..j])
    {
      bytes := Add64(bytes, live[j].size);
      assert live[..j + 1][..j] == live[..j];
    }
  }

  /** The local state of the sweep loop of `pai_mem_plan_build`. */
  class SweepState {
    const free: FreeList
    const live: array<Live>
    var liveCount: nat
    var cursor: U64
    var maxEnd: U64
    var peak: U64
    var naive: U64
    var reuses: nat
    var pinnedAllocs: nat
    var pinnedBytes: U64

    ghost predicate Valid()
      reads this, free, free.pool
    {
      free.Valid() && liveCount <= live.Length
    }

    ghost function Abs(): Sweep
      requires liveCount <= live.Length
      reads this, free, live
    {
      Sweep(free.State(), live[..liveCount], cursor, maxEnd, peak, naive, reuses, pinnedAllocs, pinnedBytes)
    }

    constructor (n: nat)
      ensures Valid() && fresh(free) && fresh(free.pool) && fresh(live)
      ensures live.Length == n && Abs() == EmptySweep
    {
      var f := new FreeList();
      var l := new Live[n](_ => Live(0, 0, 0));
      free, live := f, l;
      liveCount, cursor, maxEnd, peak, naive := 0, 0, 0, 0, 0;
      reuses, pinnedAllocs, pinnedBytes := 0, 0, 0;
    }

    /** Extend the region behind its last byte. */
    method Grow(a: Request) returns (ok: bool, off: U64)
      requires a.align != 0
      modifies this`cursor
      ensures ok == (AlignUp(old(cursor), a.align) <= U64_MAX - a.size)
      ensures ok ==> off == AlignUp(old(cursor), a.align) && cursor == off + a.size
    {
      off := AlignUp(cursor, a.align);
      ok := off <= U64_MAX - a.size;
      if ok {
        cursor := off + a.size;
      }
    }

    /** Release, then reuse the best-fitting range or extend the region. */
    method FindSpace(a: Request) returns (ok: bool, off: U64)
      requires Valid() && a.align != 0
      modifies this`liveCount, this`cursor, this`reuses, free, free.pool, live
      ensures Valid() && liveCount <= old(liveCount)
      ensures var was := old(Abs());
              var (fs, lv) := Release(was.fs, was.live, 0, a.start);
              match Find(was.(fs := fs, live := lv), a)
              case RegionOverflow => !ok
              case Placed(t, at) => ok && off == at && Abs() == t
    {
      hide Release, BestFit, TakeRange, AlignUp;
      ghost var was := Abs();
      liveCount := ReleaseEnded(free, live, liveCount, a.start);
      ghost var released := Abs();
      assert released == was.(fs := released.fs, live := released.live);
      var found;
      found, off := free.Take(a.size, a.align);
      ok := true;
      if found {
        reuses := reuses + 1;
      } else {
        ok, off := Grow(a);
      }
    }

    /** Record a placed request. */
    method Record(a: Request, off: U64)
      requires Valid() && liveCount < live.Length
      modifies this`liveCount, this`maxEnd, live
      ensures Valid() && liveCount == old(liveCount) + 1 && Abs() == Commit(old(Abs()), a, off)
    {
      maxEnd := Max(maxEnd, Add64(off, a.size));
      live[liveCount] := Live(a.end, off, a.size);
      liveCount := liveCount + 1;
    }

    /** One iteration of the sweep loop. */
    method Place(a: Request) returns (ok: bool, off: U64)
      requires Valid() && liveCount < live.Length && a.align != 0
      modifies this, free, free.pool, live
      ensures Valid() && liveCount <= old(liveCount) + 1
      ensures match Step(old(Abs()), a)
              case RegionOverflow => !ok
              case Placed(t, at) => ok && off == at && Abs() == t
    {
      hide Release, Find, AlignUp, LiveBytes, Add64, Max;
      naive := Add64(naive, AlignUp(a.size, a.align));
      if a.pinned {
        pinnedAllocs := pinnedAllocs + 1;
        pinnedBytes := Add64(pinnedBytes, a.size);
        ok, off := Grow(a);
        if ok {
          Record(a, off);
        }
      } else {
        ok, off := FindSpace(a);
        if ok {
          Record(a, off);
          var bytes := SumLive(live, liveCount);
          peak := Max(peak, bytes);
        }
      }
    }
  }

  class MemPlanner {
    var allocs: seq<Request>
    var arenaAlign: U64

    ghost predicate Valid()
      reads this
    {
      && |allocs| <= MAX_ALLOCS
      && (forall a :: a in allocs ==> WellFormed(a))
      && (arenaAlign == 0 || IsPow2(arenaAlign))
    }

    constructor ()
      ensures Valid() && allocs == [] && arenaAlign == 0
    {
      allocs := [];
      arenaAlign := 0;
    }

    method SetArenaAlign(align: U64) returns (st: Status)
      requires Valid()
      modifies this
      ensures Valid() && allocs == old(allocs)
      ensures st == if IsPow2(align) then Ok else InvalidArg
      ensures arenaAlign == if st == Ok then align else old(arenaAlign)
    {
      if align == 0 || !IsPow2(align) {
        return InvalidArg;
      }
      arenaAlign := align;
      return Ok;
    }

    /** `planner_add_common`. */
    method AddCommon(size: U64, align: U64, start: U64, end: U64, pinned: bool) returns (st: Status)
      requires Valid()
      modifies this
      ensures Valid() && arenaAlign == old(arenaAlign)
      ensures var a := Request(size, align, start, end, pinned);
              st == if !WellFormed(a) then InvalidArg
                    else if |old(allocs)| == MAX_ALLOCS then NoMem else Ok
      ensures allocs == old(allocs) + if st == Ok then [Request(size, align, start, end, pinned)] else []
    {
      if size == 0 || align == 0 || !IsPow2(align) || end <= start || size > U64_MAX - (align - 1) {
        return InvalidArg;
      }
      if |allocs| >= MAX_ALLOCS {
        return NoMem;
      }
      allocs := allocs + [Request(size, align, start, end, pinned)];
      return Ok;
    }

    /** `pai_mem_plan_build`. */
    method Build() returns (st: Status, plan: Plan, ghost order: seq<SortEntry>)
      requires Valid()
      ensures IsSortOf(order, allocs)
      ensures forall r :: r in Requests(order) ==> r.align != 0
      ensures match Run(Requests(order))
              case Overflowed => st == NoMem
              case Done(s, offs) =>
                && st == Ok
                && Scattered(plan.offsets, order, offs)
                && plan == MakePlan(plan.offsets, s, arenaAlign)
      ensures AllWellFormed(Requests(order))
      ensures st == Ok && NoWrap(Requests(order)) ==>
                && IsPeak(allocs, plan.peakLive)
                && (GoodLayout(allocs, plan.offsets, plan.regionBytes)
                    <==> ArenaFits(Run(Requests(order)).sweep, arenaAlign))
      ensures Roomy(allocs, arenaAlign) ==>
                && st == Ok
                && GoodLayout(allocs, plan.offsets, plan.regionBytes)
                && IsPeak(allocs, plan.peakLive)
                && plan.peakLive <= plan.regionBytes
                && (arenaAlign != 0 ==> plan.regionBytes % arenaAlign == 0)
    {
      hide Run, Roomy, WellFormed, GoodLayout, IsPeak, Scattered, AlignUp, SortedRequests, NoWrap, ArenaFits;
      var sorted := SortByCmp(Entries(allocs));
      order := sorted;
      SortIndices(order, allocs);
      AlignsNonZero(order, allocs);
      var sweep, offsets;
      st, sweep, offsets := SweepAll(sorted);
      plan := Plan([], 0, 0, 0, 0, 0, 0, 0);
      if st == Ok {
        var raw := Max(sweep.cursor, sweep.maxEnd);
        var region := AlignUp(raw, if arenaAlign != 0 then arenaAlign else 1);
        plan := Plan(offsets[..], region, sweep.naive,
                     if sweep.naive >= region then sweep.naive - region else 0, sweep.peak,
                     sweep.reuses, sweep.pinnedAllocs, sweep.pinnedBytes);
      }
      if Roomy(allocs, arenaAlign) {
        RoomyPlan(allocs, order, arenaAlign);
      }
      if st == Ok && NoWrap(Requests(order)) {
        var r := Run(Requests(order));
        PlanTheorem(allocs, order, arenaAlign, r.sweep, r.offs, plan.offsets);
      }
    }
  }

  lemma AlignsNonZero(order: seq<SortEntry>, allocs: seq<Request>)
    requires multiset(order) == multiset(Entries(allocs))
    requires forall a :: a in allocs ==> WellFormed(a)
    ensures AllWellFormed(Requests(order))
    ensures forall r :: r in Requests(order) ==> r.align != 0
  {
    SortIndices(order, allocs);
  }

  /** The sweep loop over the sorted entries. */
  method SweepAll(sorted: seq<SortEntry>)
    returns (st: Status, sweep: SweepState, offsets: array<U64>)
    requires forall r :: r in Requests(sorted) ==> r.align != 0
    requires forall i :: 0 <= i < |sorted| ==> sorted[i].addIdx < |sorted|
    requires forall i, j :: 0 <= i < j < |sorted| ==> sorted[i].addIdx != sorted[j].addIdx
    ensures sweep.Valid() && fresh(sweep) && fresh(offsets)
    ensures match Run(Requests(sorted))
            case Overflowed => st == NoMem
            case Done(s, offs) => st == Ok && sweep.Abs() == s && Scattered(offsets[..], sorted, offs)
  {
    hide Step, Run, Scattered;
    ghost var rs := Requests(sorted);
    EmptyRun();
    sweep := new SweepState(|sorted|);
    offsets := new U64[|sorted|](_ => 0);
    ghost var offs := [];
    EmptyScatter(offsets[..], sorted);
    for i := 0 to |sorted|
      invariant sweep.Valid() && sweep.liveCount <= i && fresh(sweep.free) && fresh(sweep.free.pool)
      invariant Run(rs[..i]) == Done(sweep.Abs(), offs)
      invariant Scattered(offsets[..], sorted, offs)
    {
      RunExtend(rs, i);
      var ok, off := sweep.Place(sorted[i].alloc);
      if !ok {
        OverflowStays(rs, i + 1);
        st := NoMem;
        return;
      }
      ScatterNext(offsets[..], sorted, offs, off);
      offsets[sorted[i].addIdx] := off;
      offs := offs + [off];
    }
    assert rs[..|sorted|] == rs;
    st := Ok;
  }

  lemma EmptyRun()
    ensures Run([]) == Done(EmptySweep, [])
  {
  }

  lemma EmptyScatter(offsets: seq<U64>, order: seq<SortEntry>)
    requires |offsets| == |order|
    ensures Scattered(offsets, order, [])
  {
  }

  lemma ScatterNext(offsets: seq<U64>, order: seq<SortEntry>, offs: seq<U64>, off: U64)
    requires Scattered(offsets, order, offs) && |offs| < |order|
    requires order[|offs|].addIdx < |order|
    requires forall i, j :: 0 <= i < j < |order| ==> order[i].addIdx != order[j].addIdx
    ensures Scattered(offsets[order[|offs|].addIdx := off], order, offs + [off])
  {
  }

  /** Once the sweep overflows on a prefix it overflows on the whole. */
  lemma {:induction false} OverflowStays(rs: seq<Request>, k: nat)
    requires k <= |rs| && forall a :: a in rs ==> a.align != 0
    requires Run(rs[..k]).Overflowed?
    ensures Run(rs).Overflowed?
    decreases |rs| - k
  {
    if k == |rs| {
      assert rs[..k] == rs;
    } else {
      assert rs[..k + 1][..k] == rs[..k];
      OverflowStays(rs, k + 1);
    }
  }

  lemma RunExtend(rs: seq<Request>, i: nat)
    requires i < |rs| && forall a :: a in rs ==> a.align != 0
    requires Run(rs[..i]).Done?
    ensures var r := Run(rs[..i]);
            Run(rs[..i + 1]) == match Step(r.sweep, rs[i])
                                case RegionOverflow => Overflowed
                                case Placed(t, off) => Done(t, r.offs + [off])
  {
    assert rs[..i + 1][..i] == rs[..i];
  }
}
