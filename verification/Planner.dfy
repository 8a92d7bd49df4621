/** The sweep of the static memory planner (memory/planner.c) as a function of
    the sorted requests. Every C `uint64_t` operation that could wrap does so
    here too; PlannerSafety says when none of them does. */
module Planner {
  import opened Mem

  const MAX_ALLOCS: nat := 1024
  const POOL_CAP: nat := MAX_ALLOCS * 2 + 4

  /** `pai_mem_alloc_t`: live for start <= step < end. */
  datatype Request = Request(size: U64, align: U64, start: U64, end: U64, pinned: bool)

  /** A request with its index in add order. */
  datatype SortEntry = SortEntry(alloc: Request, addIdx: nat)

  datatype Range = Range(off: U64, size: U64)

  datatype Live = Live(end: U64, off: U64, size: U64)

  /** The free list and the number of pool nodes handed out so far. */
  datatype FreeState = FreeState(ranges: seq<Range>, used: nat)

  datatype Sweep = Sweep(
    fs: FreeState, live: seq<Live>, cursor: U64, maxEnd: U64, peak: U64, naive: U64,
    reuses: nat, pinnedAllocs: nat, pinnedBytes: U64)

  datatype StepResult = Placed(sweep: Sweep, off: U64) | RegionOverflow

  datatype RunResult = Done(sweep: Sweep, offs: seq<U64>) | Overflowed

  predicate WellFormed(r: Request) {
    && r.size > 0
    && r.align > 0
    && IsPow2(r.align)
    && r.start < r.end
    && r.size <= U64_MAX - (r.align - 1)
  }

  /** Pinned last, then by start, then longer-lived first. */
  function AllocCmp(a: Request, b: Request): int {
    if a.pinned != b.pinned then (if !a.pinned then -1 else 1)
    else if a.start != b.start then (if a.start < b.start then -1 else 1)
    else if a.end != b.end then (if a.end > b.end then -1 else 1)
    else 0
  }

  ghost predicate SortedRequests(rs: seq<Request>) {
    forall i, j :: 0 <= i < j < |rs| ==> AllocCmp(rs[i], rs[j]) <= 0
  }

  lemma InsertSorted(rs: seq<Request>, k: nat, a: Request)
    requires SortedRequests(rs) && k <= |rs|
    requires k > 0 ==> AllocCmp(rs[k - 1], a) <= 0
    requires k < |rs| ==> AllocCmp(a, rs[k]) <= 0
    ensures SortedRequests(rs[..k] + [a] + rs[k..])
  {
    var t := rs[..k] + [a] + rs[k..];
    forall i, j | 0 <= i < j < |t|
      ensures AllocCmp(t[i], t[j]) <= 0
    {
      if i < k == j {
        AllocCmpTransitive(t[i], rs[k - 1], a);
      } else if i == k < j {
        AllocCmpTransitive(a, rs[k], t[j]);
      }
    }
  }

  lemma AllocCmpTransitive(a: Request, b: Request, c: Request)
    ensures AllocCmp(a, a) == 0
    ensures AllocCmp(a, b) <= 0 && AllocCmp(b, c) <= 0 ==> AllocCmp(a, c) <= 0
    ensures AllocCmp(a, b) == -AllocCmp(b, a)
  {
  }

  /* ---- the free list ---- */

  /** First position at or after i whose range does not start before off. */
  function Position(ranges: seq<Range>, off: U64, i: nat): (p: nat)
    requires i <= |ranges|
    requires i > 0 ==> ranges[i - 1].off < off
    ensures i <= p <= |ranges|
    ensures p > 0 ==> ranges[p - 1].off < off
    ensures p < |ranges| ==> ranges[p].off >= off
    decreases |ranges| - i
  {
    if i == |ranges| || ranges[i].off >= off then i else Position(ranges, off, i + 1)
  }

  /** Positions i..j of r replaced by the single range m. */
  function Splice(r: seq<Range>, i: nat, j: nat, m: Range): seq<Range>
    requires i <= j <= |r|
  {
    r[..i] + [m] + r[j..]
  }

  /** Insert [off, off + size), merging with either neighbour; with the node
      pool exhausted a range that touches no neighbour is dropped. */
  function FreeInsert(fs: FreeState, off: U64, size: U64): FreeState {
    var r := fs.ranges;
    var p := Position(r, off, 0);
    var left := p > 0 && Add64(r[p - 1].off, r[p - 1].size) == off;
    var right := p < |r| && Add64(off, size) == r[p].off;
    if left && right then
      var m := Range(r[p - 1].off, Add64(Add64(r[p - 1].size, size), r[p].size));
      FreeState(Splice(r, p - 1, p + 1, m), fs.used)
    else if left then
      FreeState(Splice(r, p - 1, p, Range(r[p - 1].off, Add64(r[p - 1].size, size))), fs.used)
    else if right then
      FreeState(Splice(r, p, p + 1, Range(off, Add64(r[p].size, size))), fs.used)
    else if fs.used >= POOL_CAP then
      fs
    else
      FreeState(Splice(r, p, p, Range(off, size)), fs.used + 1)
  }

  /** Room for an aligned block of the given size inside r. */
  predicate Fits(r: Range, size: U64, align: U64)
    requires align != 0
  {
    r.size >= Add64(Sub64(AlignUp(r.off, align), r.off), size)
  }

  /** Scan from position i, keeping the first smallest fitting range; -1 for none. */
  function BestFit(ranges: seq<Range>, size: U64, align: U64, i: nat, best: int): (b: int)
    requires align != 0 && i <= |ranges| && -1 <= best < i
    requires best >= 0 ==> Fits(ranges[best], size, align)
    ensures -1 <= b < |ranges|
    ensures b >= 0 ==> Fits(ranges[b], size, align)
    ensures best >= 0 ==> b >= 0
    decreases |ranges| - i
  {
    if i == |ranges| then best
    else if Fits(ranges[i], size, align) && (best < 0 || ranges[i].size < ranges[best].size) then
      BestFit(ranges, size, align, i + 1, i)
    else
      BestFit(ranges, size, align, i + 1, best)
  }

  /** Unlink range b and give back what lies left and right of [off, off + size) in it. */
  function Carve(fs: FreeState, b: nat, off: U64, size: U64): FreeState
    requires b < |fs.ranges|
  {
    var r := fs.ranges[b];
    var leftPad := Sub64(off, r.off);
    var right := Sub64(Sub64(r.size, leftPad), size);
    var unlinked := FreeState(fs.ranges[..b] + fs.ranges[b + 1..], fs.used);
    InsertNonEmpty(InsertNonEmpty(unlinked, r.off, leftPad), Add64(off, size), right)
  }

  /** Take an aligned block out of range b. */
  function TakeRange(fs: FreeState, b: nat, size: U64, align: U64): FreeState
    requires align != 0 && b < |fs.ranges|
  {
    Carve(fs, b, AlignUp(fs.ranges[b].off, align), size)
  }

  function InsertNonEmpty(fs: FreeState, off: U64, size: U64): FreeState {
    if size > 0 then FreeInsert(fs, off, size) else fs
  }

  /* ---- the sweep ---- */

  /** Release from position j on every live record that ended by `start`;
      the last record takes the released one's place. */
  function Release(fs: FreeState, live: seq<Live>, j: nat, start: U64): (r: (FreeState, seq<Live>))
    requires j <= |live|
    ensures |r.1| <= |live|
    decreases |live| - j
  {
    if j == |live| then (fs, live)
    else if live[j].end <= start then
      Release(FreeInsert(fs, live[j].off, live[j].size), RemoveSwap(live, j), j, start)
    else
      Release(fs, live, j + 1, start)
  }

  function RemoveSwap(live: seq<Live>, j: nat): seq<Live>
    requires j < |live|
  {
    live[j := live[|live| - 1]][..|live| - 1]
  }

  function LiveBytes(live: seq<Live>): U64 {
    if live == [] then 0 else Add64(LiveBytes(live[..|live| - 1]), live[|live| - 1].size)
  }

  function Max(x: U64, y: U64): U64 { if x > y then x else y }

  /** Append the request behind the last byte used so far. */
  function Extend(s: Sweep, a: Request): StepResult
    requires a.align != 0
  {
    var off := AlignUp(s.cursor, a.align);
    if off > U64_MAX - a.size then RegionOverflow
    else Placed(s.(cursor := off + a.size), off)
  }

  /** Reuse the best-fitting free range, or extend. */
  function Find(s: Sweep, a: Request): StepResult
    requires a.align != 0
  {
    var b := BestFit(s.fs.ranges, a.size, a.align, 0, -1);
    if b >= 0 then
      Placed(s.(fs := TakeRange(s.fs, b, a.size, a.align), reuses := s.reuses + 1),
             AlignUp(s.fs.ranges[b].off, a.align))
    else
      Extend(s, a)
  }

  /** Record the placement of a at off. */
  function Commit(s: Sweep, a: Request, off: U64): Sweep {
    s.(maxEnd := Max(s.maxEnd, Add64(off, a.size)), live := s.live + [Live(a.end, off, a.size)])
  }

  function Step(s: Sweep, a: Request): StepResult
    requires a.align != 0
  {
    var counted := s.(naive := Add64(s.naive, AlignUp(a.size, a.align)));
    if a.pinned then
      var pinned := counted.(pinnedAllocs := s.pinnedAllocs + 1,
                             pinnedBytes := Add64(s.pinnedBytes, a.size));
      match Extend(pinned, a)
      case RegionOverflow => RegionOverflow
      case Placed(t, off) => Placed(Commit(t, a, off), off)
    else
      var (fs, live) := Release(s.fs, s.live, 0, a.start);
      match Find(counted.(fs := fs, live := live), a)
      case RegionOverflow => RegionOverflow
      case Placed(t, off) =>
        var u := Commit(t, a, off);
        Placed(u.(peak := Max(u.peak, LiveBytes(u.live))), off)
  }

  const EmptySweep := Sweep(FreeState([], 0), [], 0, 0, 0, 0, 0, 0, 0)

  /** The sweep over all requests, in sorted order. */
  function Run(rs: seq<Request>): (r: RunResult)
    requires forall a :: a in rs ==> a.align != 0
    ensures r.Done? ==> |r.offs| == |rs|
  {
    if rs == [] then Done(EmptySweep, [])
    else
      match Run(rs[..|rs| - 1])
      case Overflowed => Overflowed
      case Done(s, offs) =>
        match Step(s, rs[|rs| - 1])
        case RegionOverflow => Overflowed
        case Placed(t, off) => Done(t, offs + [off])
  }

  /* ---- the plan ---- */

  /** `pai_mem_plan_t`; offsets are in add order. */
  datatype Plan = Plan(
    offsets: seq<U64>, regionBytes: U64, naiveBytes: U64, reuseBytes: U64, peakLive: U64,
    reuses: nat, pinnedAllocs: nat, pinnedBytes: U64)

  function Entries(allocs: seq<Request>): (es: seq<SortEntry>)
    ensures |es| == |allocs|
  {
    seq(|allocs|, i requires 0 <= i < |allocs| => SortEntry(allocs[i], i))
  }

  function Requests(order: seq<SortEntry>): (rs: seq<Request>)
    ensures |rs| == |order|
  {
    seq(|order|, i requires 0 <= i < |order| => order[i].alloc)
  }

  /** One of the orders in which `qsort` may leave the entries. */
  ghost predicate IsSortOf(order: seq<SortEntry>, allocs: seq<Request>) {
    && multiset(order) == multiset(Entries(allocs))
    && SortedRequests(Requests(order))
  }

  /** Position i of the order holds the request added as addIdx, and no other position does. */
  lemma SortIndices(order: seq<SortEntry>, allocs: seq<Request>)
    requires multiset(order) == multiset(Entries(allocs))
    ensures |order| == |allocs|
    ensures forall i :: 0 <= i < |order| ==>
              order[i].addIdx < |allocs| && order[i].alloc == allocs[order[i].addIdx]
    ensures forall i, j :: 0 <= i < j < |order| ==> order[i].addIdx != order[j].addIdx
  {
    var es := Entries(allocs);
    assert |multiset(order)| == |multiset(es)|;
    forall i | 0 <= i < |order|
      ensures order[i].addIdx < |allocs| && order[i].alloc == allocs[order[i].addIdx]
    {
      assert order[i] in multiset(es);
    }
    forall i, j | 0 <= i < j < |order|
      ensures order[i].addIdx != order[j].addIdx
    {
      if order[i].addIdx == order[j].addIdx {
        assert order[i] == order[j];
        CountTwice(order, i, j);
        CountOnce(allocs, order[i].addIdx);
      }
    }
  }

  lemma SortPosition(order: seq<SortEntry>, allocs: seq<Request>, k: nat) returns (i: nat)
    requires multiset(order) == multiset(Entries(allocs)) && k < |allocs|
    ensures i < |order| && order[i] == SortEntry(allocs[k], k)
  {
    assert Entries(allocs)[k] in multiset(order);
    i :| 0 <= i < |order| && order[i] == SortEntry(allocs[k], k);
  }

  lemma CountTwice<T>(s: seq<T>, i: nat, j: nat)
    requires i < j < |s| && s[i] == s[j]
    ensures multiset(s)[s[i]] >= 2
  {
    assert s == s[..i] + [s[i]] + s[i + 1..j] + [s[j]] + s[j + 1..];
  }

  lemma CountOnce(allocs: seq<Request>, k: nat)
    requires k < |allocs|
    ensures multiset(Entries(allocs))[SortEntry(allocs[k], k)] == 1
  {
    var es := Entries(allocs);
    assert es == es[..k] + [es[k]] + es[k + 1..];
    assert forall e :: e in es[..k] ==> e.addIdx < k;
    assert forall e :: e in es[k + 1..] ==> e.addIdx > k;
  }

  function RegionBytes(s: Sweep, arenaAlign: U64): U64 {
    AlignUp(Max(s.cursor, s.maxEnd), if arenaAlign != 0 then arenaAlign else 1)
  }

  /** The statistics of a completed sweep together with the offsets in add order. */
  function MakePlan(offsets: seq<U64>, s: Sweep, arenaAlign: U64): Plan {
    var region := RegionBytes(s, arenaAlign);
    Plan(offsets, region, s.naive, if s.naive >= region then s.naive - region else 0, s.peak,
         s.reuses, s.pinnedAllocs, s.pinnedBytes)
  }

  /** Offset i of the sweep sits at the add index of entry i. */
  ghost predicate Scattered(offsets: seq<U64>, order: seq<SortEntry>, offs: seq<U64>) {
    && |offs| <= |order| == |offsets|
    && forall i :: 0 <= i < |offs| ==>
         order[i].addIdx < |offsets| && offsets[order[i].addIdx] == offs[i]
  }
}
