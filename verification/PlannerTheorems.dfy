/** The main results about the planner's sweep, by induction over the sorted requests. */
module PlannerTheorems {
  import opened Mem
  import opened Seqs
  import opened Planner
  import opened PlannerSafety

  /** Live at a common step. */
  predicate Overlap(a: Request, b: Request) {
    a.start < b.end && b.start < a.end
  }

  /** Requests that are live together, or of which one is pinned, share no byte. */
  ghost predicate Safe(rs: seq<Request>, offs: seq<U64>)
    requires |rs| == |offs|
  {
    forall i, j :: 0 <= i < j < |rs| && (Overlap(rs[i], rs[j]) || rs[i].pinned || rs[j].pinned) ==>
      Apart(offs[i], rs[i].size, offs[j], rs[j].size)
  }

  ghost predicate Inside(rs: seq<Request>, offs: seq<U64>, cap: nat)
    requires |rs| == |offs|
  {
    forall i :: 0 <= i < |rs| ==> 
      offs[i] + rs[i].size <= cap && rs[i].align != 0 && offs[i] % rs[i].align == 0
  }

  /** The records of the placed requests that end after step t. */
  ghost function Alive(rs: seq<Request>, offs: seq<U64>, t: nat): seq<Live>
    requires |rs| == |offs|
  {
    if rs == [] then []
    else
      var n := |rs| - 1;
      Alive(rs[..n], offs[..n], t)
      + if rs[n].end > t then [Live(rs[n].end, offs[n], rs[n].size)] else []
  }

  ghost function Now(rs: seq<Request>): U64 {
    if rs == [] then 0 else rs[|rs| - 1].start
  }

  ghost predicate NonePinned(rs: seq<Request>) {
    forall i :: 0 <= i < |rs| ==> !rs[i].pinned
  }

  ghost predicate AllWellFormed(rs: seq<Request>) {
    forall i :: 0 <= i < |rs| ==> WellFormed(rs[i])
  }

  ghost predicate Inv(s: Sweep, rs: seq<Request>, offs: seq<U64>)
    requires |rs| == |offs|
  {
    && Layout(s.fs.ranges, s.live, s.cursor)
    && LiveTotal(s.live) + FreeBytes(s.fs.ranges) <= s.cursor
    && s.maxEnd <= s.cursor
    && Inside(rs, offs, s.cursor)
    && Safe(rs, offs)
    && (NonePinned(rs) ==> multiset(s.live) == multiset(Alive(rs, offs, Now(rs))))
  }

  /** Request a is placed behind the region: it is pinned or no free range fits. */
  predicate Extends(s: Sweep, a: Request)
    requires a.align != 0
  {
    a.pinned || BestFit(Release(s.fs, s.live, 0, a.start).0.ranges, a.size, a.align, 0, -1) < 0
  }

  /** If a extends the region, rounding the cursor up does not wrap. */
  predicate Room(s: Sweep, a: Request)
    requires a.align != 0
  {
    Extends(s, a) ==> s.cursor + a.align <= U64_SIZE
  }

  /** No step that extends the region wraps. */
  ghost predicate NoWrap(rs: seq<Request>)
    requires AllWellFormed(rs)
  {
    forall k :: 0 <= k < |rs| && Run(rs[..k]).Done? ==> Room(Run(rs[..k]).sweep, rs[k])
  }

  /* ---- one step ---- */

  lemma {:induction false} CapClear(r: seq<Range>, cap: nat, x: nat, xs: nat)
    requires Separated(r, cap) && cap <= x
    ensures Clear(r, x, xs)
  {
    if r != [] {
      CapClear(r[1..], cap, x, xs);
    }
  }

  lemma {:induction false} SeparatedGrow(r: seq<Range>, cap: nat, cap2: nat)
    requires Separated(r, cap) && cap <= cap2
    ensures Separated(r, cap2)
  {
    if r != [] {
      SeparatedGrow(r[1..], cap, cap2);
    }
  }

  lemma LayoutPush(r: seq<Range>, live: seq<Live>, cap: nat, l: Live)
    requires Layout(r, live, cap) && l.size > 0 && l.off + l.size <= cap && Clear(r, l.off, l.size)
    requires forall k :: 0 <= k < |live| ==> Apart(live[k].off, live[k].size, l.off, l.size)
    ensures Layout(r, live + [l], cap)
    ensures LiveTotal(live + [l]) == LiveTotal(live) + l.size
  {
    assert (live + [l])[..|live|] == live;
  }

  /** Extending behind the cursor. */
  lemma GrowLayout(r: seq<Range>, live: seq<Live>, cursor: U64, a: Request)
    requires Layout(r, live, cursor) && WellFormed(a) && cursor + a.align <= U64_SIZE
    requires AlignUp(cursor, a.align) <= U64_MAX - a.size
    ensures var off := AlignUp(cursor, a.align);
            && cursor <= off && off % a.align == 0
            && Layout(r, live + [Live(a.end, off, a.size)], off + a.size)
            && LiveTotal(live + [Live(a.end, off, a.size)]) == LiveTotal(live) + a.size
  {
    hide Separated, Clear, LiveTotal, AlignUp;
    AlignUpBounds(cursor, a.align);
    var off := AlignUp(cursor, a.align);
    SeparatedGrow(r, cursor, off + a.size);
    CapClear(r, cursor, off, a.size);
    LayoutPush(r, live, off + a.size, Live(a.end, off, a.size));
  }

  /** Reusing a fitting free range. */
  lemma ReuseLayout(fs: FreeState, live: seq<Live>, cursor: U64, a: Request, b: nat)
    requires Layout(fs.ranges, live, cursor) && WellFormed(a)
    requires b < |fs.ranges| && Fits(fs.ranges[b], a.size, a.align)
    ensures var off := AlignUp(fs.ranges[b].off, a.align);
            var t := TakeRange(fs, b, a.size, a.align);
            && off + a.size <= cursor && off % a.align == 0
            && Layout(t.ranges, live + [Live(a.end, off, a.size)], cursor)
            && FreeBytes(t.ranges) + a.size <= FreeBytes(fs.ranges)
            && LiveTotal(live + [Live(a.end, off, a.size)]) == LiveTotal(live) + a.size
  {
    hide Separated, Clear, LiveTotal, AlignUp, Carve, FreeBytes;
    SeparatedAt(fs.ranges, cursor, b);
    HalfRange(a.align);
    FitsInside(fs.ranges[b], a.size, a.align, cursor);
    var off := AlignUp(fs.ranges[b].off, a.align);
    CarveLayout(fs, b, off, a.size, cursor);
    forall k | 0 <= k < |live|
      ensures Clear(Carve(fs, b, off, a.size).ranges, live[k].off, live[k].size)
      ensures Apart(live[k].off, live[k].size, off, a.size)
    {
      CarveClear(fs, b, off, a.size, cursor, live[k].off, live[k].size);
    }
    LayoutPush(Carve(fs, b, off, a.size).ranges, live, cursor, Live(a.end, off, a.size));
  }

  /** The largest power of two of 64 bits. */
  lemma HalfRange(align: U64)
    requires IsPow2(align)
    ensures align <= 0x8000_0000_0000_0000
  {
    var k := IsPow2Exponent(align);
    Pow2Values();
    if k > 63 {
      Pow2Monotone(63, k);
    } else {
      Pow2Monotone(k, 63);
    }
  }

  /** Placing a reusable request among the records left by the release. */
  lemma FindLayout(s: Sweep, a: Request)
    requires Layout(s.fs.ranges, s.live, s.cursor) && WellFormed(a)
    requires BestFit(s.fs.ranges, a.size, a.align, 0, -1) < 0 ==> s.cursor + a.align <= U64_SIZE
    requires LiveTotal(s.live) + FreeBytes(s.fs.ranges) <= s.cursor
    ensures match Find(s, a)
            case RegionOverflow => true
            case Placed(t, off) =>
              && s.cursor <= t.cursor && off + a.size <= t.cursor && off % a.align == 0
              && t == s.(fs := t.fs, cursor := t.cursor, reuses := t.reuses)
              && Layout(t.fs.ranges, s.live + [Live(a.end, off, a.size)], t.cursor)
              && LiveTotal(s.live + [Live(a.end, off, a.size)]) + FreeBytes(t.fs.ranges) <= t.cursor
  {
    hide Layout, LiveTotal, AlignUp, TakeRange, FreeBytes, WellFormed;
    WellFormedPositive(a);
    var b := BestFit(s.fs.ranges, a.size, a.align, 0, -1);
    if b >= 0 {
      ReuseLayout(s.fs, s.live, s.cursor, a, b);
    } else if AlignUp(s.cursor, a.align) <= U64_MAX - a.size {
      GrowLayout(s.fs.ranges, s.live, s.cursor, a);
    }
  }

  lemma WellFormedPositive(a: Request)
    requires WellFormed(a)
    ensures a.align > 0 && a.size > 0
  {
  }

  /* ---- the live records ---- */

  /** Every placed request as a record. */
  ghost function Records(rs: seq<Request>, offs: seq<U64>): (ls: seq<Live>)
    requires |rs| == |offs|
    ensures |ls| == |rs|
    ensures forall i :: 0 <= i < |rs| ==> ls[i] == Live(rs[i].end, offs[i], rs[i].size)
  {
    seq(|rs|, i requires 0 <= i < |rs| => Live(rs[i].end, offs[i], rs[i].size))
  }

  lemma {:induction false} AliveCount(rs: seq<Request>, offs: seq<U64>, t: nat, x: Live)
    requires |rs| == |offs|
    ensures multiset(Alive(rs, offs, t))[x] == if x.end > t then multiset(Records(rs, offs))[x] else 0
  {
    if rs != [] {
      var n := |rs| - 1;
      AliveCount(rs[..n], offs[..n], t, x);
      assert Records(rs, offs) == Records(rs[..n], offs[..n]) + [Live(rs[n].end, offs[n], rs[n].size)];
    }
  }

  /** A release at step t turns the records alive at an earlier step into those alive at t. */
  lemma ReleaseAlive(fs: FreeState, live: seq<Live>, rs: seq<Request>, offs: seq<U64>, now: nat, t: U64)
    requires |rs| == |offs| && now <= t
    requires multiset(live) == multiset(Alive(rs, offs, now))
    ensures multiset(Release(fs, live, 0, t).1) == multiset(Alive(rs, offs, t))
  {
    var live2 := Release(fs, live, 0, t).1;
    forall x
      ensures multiset(live2)[x] == multiset(Alive(rs, offs, t))[x]
    {
      ReleaseContents(fs, live, 0, t, x);
      AliveCount(rs, offs, now, x);
      AliveCount(rs, offs, t, x);
    }
  }

  lemma AliveMember(rs: seq<Request>, offs: seq<U64>, t: nat, i: nat)
    requires |rs| == |offs| && i < |rs| && rs[i].end > t
    ensures Live(rs[i].end, offs[i], rs[i].size) in Alive(rs, offs, t)
  {
    var x := Records(rs, offs)[i];
    AliveCount(rs, offs, t, x);
    assert x in multiset(Records(rs, offs));
    assert x in multiset(Alive(rs, offs, t));
  }

  /* ---- every step keeps the invariant ---- */

  lemma SafePush(rs: seq<Request>, offs: seq<U64>, a: Request, off: U64)
    requires |rs| == |offs| && Safe(rs, offs)
    requires forall i :: 0 <= i < |rs| && (Overlap(rs[i], a) || rs[i].pinned || a.pinned) ==>
               Apart(offs[i], rs[i].size, off, a.size)
    ensures Safe(rs + [a], offs + [off])
  {
  }

  lemma InsidePush(rs: seq<Request>, offs: seq<U64>, cap: nat, a: Request, off: U64, cap2: nat)
    requires |rs| == |offs| && Inside(rs, offs, cap) && cap <= cap2
    requires off + a.size <= cap2 && a.align != 0 && off % a.align == 0
    ensures Inside(rs + [a], offs + [off], cap2)
  {
  }

  /** Sorting puts reusable requests first, and those by start step. */
  lemma SortedStep(rs: seq<Request>, a: Request)
    requires SortedRequests(rs + [a])
    ensures SortedRequests(rs)
    ensures !a.pinned ==> NonePinned(rs) && Now(rs) <= a.start
  {
    var t := rs + [a];
    assert forall i :: 0 <= i < |rs| ==> t[i] == rs[i] && AllocCmp(t[i], t[|rs|]) <= 0;
    assert forall i, j :: 0 <= i < j < |rs| ==> AllocCmp(t[i], t[j]) <= 0;
  }

  lemma PinnedStepInv(s: Sweep, rs: seq<Request>, offs: seq<U64>, a: Request)
    requires |rs| == |offs| && Inv(s, rs, offs) && WellFormed(a) && a.pinned
    requires s.cursor + a.align <= U64_SIZE
    ensures match Step(s, a)
            case RegionOverflow => true
            case Placed(t, off) => Inv(t, rs + [a], offs + [off])
  {
    hide Separated, Clear, LiveTotal, AlignUp, FreeBytes, Alive, Layout, Safe, Inside, LiveBytes, IsPow2;
    if AlignUp(s.cursor, a.align) <= U64_MAX - a.size {
      var off := AlignUp(s.cursor, a.align);
      GrowLayout(s.fs.ranges, s.live, s.cursor, a);
      InsidePush(rs, offs, s.cursor, a, off, off + a.size);
      forall i | 0 <= i < |rs|
        ensures Apart(offs[i], rs[i].size, off, a.size)
      {
        InsideAt(rs, offs, s.cursor, i);
      }
      SafePush(rs, offs, a, off);
      assert (rs + [a])[|rs|].pinned;
    }
  }

  lemma InsideAt(rs: seq<Request>, offs: seq<U64>, cap: nat, i: nat)
    requires |rs| == |offs| && Inside(rs, offs, cap) && i < |rs|
    ensures offs[i] + rs[i].size <= cap
  {
  }

  /** A reusable request is placed apart from all that are alive at its start. */
  lemma ReusableStepInv(s: Sweep, rs: seq<Request>, offs: seq<U64>, a: Request)
    requires |rs| == |offs| && Inv(s, rs, offs) && WellFormed(a) && !a.pinned
    requires Room(s, a) && NonePinned(rs) && Now(rs) <= a.start
    ensures match Step(s, a)
            case RegionOverflow => true
            case Placed(t, off) => Inv(t, rs + [a], offs + [off])
  {
    hide Separated, Clear, AlignUp, FreeBytes, Release, Find, Inside, LiveBytes, LiveTotal, IsPow2, Alive;
    var (fs, live) := Release(s.fs, s.live, 0, a.start);
    ReleaseLayout(s.fs, s.live, 0, a.start, s.cursor);
    ReleaseAlive(s.fs, s.live, rs, offs, Now(rs), a.start);
    var u := s.(naive := Add64(s.naive, AlignUp(a.size, a.align)), fs := fs, live := live);
    FindLayout(u, a);
    match Find(u, a)
    case RegionOverflow =>
    case Placed(t, off) =>
      var l := Live(a.end, off, a.size);
      InsidePush(rs, offs, s.cursor, a, off, t.cursor);
      forall i | 0 <= i < |rs| && Overlap(rs[i], a)
        ensures Apart(offs[i], rs[i].size, off, a.size)
      {
        AliveMember(rs, offs, a.start, i);
        LiveMemberApart(live, t.cursor, l, Live(rs[i].end, offs[i], rs[i].size));
      }
      SafePush(rs, offs, a, off);
      AlivePush(rs, offs, a, off);
      assert Now(rs + [a]) == a.start;
      assert multiset(live + [l]) == multiset(live) + multiset([l]);
  }

  lemma LiveMemberApart(live: seq<Live>, cap: nat, l: Live, x: Live)
    requires LiveApart(live + [l], cap) && multiset(live)[x] > 0
    ensures Apart(x.off, x.size, l.off, l.size)
  {
    assert x in live;
    var k :| 0 <= k < |live| && live[k] == x;
    assert (live + [l])[k] == x && (live + [l])[|live|] == l;
  }

  lemma AlivePush(rs: seq<Request>, offs: seq<U64>, a: Request, off: U64)
    requires |rs| == |offs| && a.start < a.end
    ensures Alive(rs + [a], offs + [off], a.start) == Alive(rs, offs, a.start) + [Live(a.end, off, a.size)]
  {
    assert (rs + [a])[..|rs|] == rs && (offs + [off])[..|rs|] == offs;
  }

  lemma PrefixFacts(rs: seq<Request>)
    requires rs != [] && AllWellFormed(rs) && SortedRequests(rs) && NoWrap(rs)
    ensures var p := rs[..|rs| - 1];
            && rs == p + [rs[|rs| - 1]]
            && AllWellFormed(p) && SortedRequests(p) && NoWrap(p)
            && (Run(p).Done? ==> Room(Run(p).sweep, rs[|rs| - 1]))
  {
    hide Run, AllocCmp, WellFormed, Room;
    var p := rs[..|rs| - 1];
    assert forall i :: 0 <= i < |p| ==> p[i] == rs[i];
    assert forall k :: 0 <= k < |p| ==> p[..k] == rs[..k];
  }

  lemma StepInv(s: Sweep, p: seq<Request>, offs: seq<U64>, a: Request)
    requires |p| == |offs| && Inv(s, p, offs) && WellFormed(a)
    requires SortedRequests(p + [a]) && Room(s, a)
    ensures match Step(s, a)
            case RegionOverflow => true
            case Placed(t, off) => Inv(t, p + [a], offs + [off])
  {
    hide Inv, Step;
    SortedStep(p, a);
    if a.pinned {
      PinnedStepInv(s, p, offs, a);
    } else {
      ReusableStepInv(s, p, offs, a);
    }
  }

  /** The sweep keeps its invariant over every sorted list of requests. */
  lemma {:induction false} RunInv(rs: seq<Request>)
    requires AllWellFormed(rs) && SortedRequests(rs) && NoWrap(rs)
    ensures match Run(rs)
            case Overflowed => true
            case Done(s, offs) => Inv(s, rs, offs)
  {
    hide Inv, Step, NoWrap, SortedRequests;
    if rs == [] {
      EmptyInv();
    } else {
      PrefixFacts(rs);
      var p, a := rs[..|rs| - 1], rs[|rs| - 1];
      assert WellFormed(a);
      RunInv(p);
      if Run(p).Done? {
        StepInv(Run(p).sweep, p, Run(p).offs, a);
      }
    }
  }

  lemma EmptyInv()
    ensures Inv(EmptySweep, [], [])
  {
  }

  /** A step that leaves no room wraps: it is placed at offset 0 and the cursor falls back. */
  lemma WrappedStep(s: Sweep, a: Request)
    requires WellFormed(a) && !Room(s, a)
    ensures match Step(s, a)
            case RegionOverflow => false
            case Placed(t, off) => off == 0 && t.cursor == a.size < s.cursor
  {
    hide AlignUp, Release, BestFit, LiveBytes, IsPow2;
    AlignUpWraps(s.cursor, a.align);
  }

  /** Whether that step already makes two requests share bytes. */
  lemma WrappedSafeIff(p: seq<Request>, offs: seq<U64>, a: Request)
    requires |p| == |offs| && Safe(p, offs) && a.size > 0 && forall i :: 0 <= i < |p| ==> p[i].size > 0
    ensures Safe(p + [a], offs + [0]) <==>
            forall i :: 0 <= i < |p| && (Overlap(p[i], a) || p[i].pinned || a.pinned) ==> offs[i] >= a.size
  {
    var q, o := p + [a], offs + [0];
    if Safe(q, o) {
      forall i | 0 <= i < |p| && (Overlap(p[i], a) || p[i].pinned || a.pinned)
        ensures offs[i] >= a.size
      {
        assert q[i] == p[i] && q[|p|] == a && o[i] == offs[i] && o[|p|] == 0;
        assert Apart(o[i], q[i].size, o[|p|], q[|p|].size);
      }
    }
  }

  /** Until something is placed the cursor is 0; then it is where some request ends. */
  ghost predicate CursorIsEnd(rs: seq<Request>, offs: seq<U64>, cursor: nat)
    requires |rs| == |offs|
  {
    cursor == 0 || exists i :: 0 <= i < |rs| && offs[i] + rs[i].size == cursor
  }

  lemma CursorPush(rs: seq<Request>, offs: seq<U64>, cursor: nat, a: Request, off: U64, cursor2: nat)
    requires |rs| == |offs| && CursorIsEnd(rs, offs, cursor)
    requires cursor2 == cursor || cursor2 == off + a.size
    ensures CursorIsEnd(rs + [a], offs + [off], cursor2)
  {
    var q, o := rs + [a], offs + [off];
    if cursor2 == off + a.size {
      assert o[|rs|] + q[|rs|].size == cursor2;
    } else if cursor != 0 {
      var i :| 0 <= i < |rs| && offs[i] + rs[i].size == cursor;
      assert o[i] + q[i].size == cursor2;
    }
  }

  lemma {:induction false} RunCursor(rs: seq<Request>)
    requires AllWellFormed(rs) && Run(rs).Done?
    ensures CursorIsEnd(rs, Run(rs).offs, Run(rs).sweep.cursor)
  {
    hide IsPow2, Step, CursorIsEnd;
    if rs == [] {
      NothingPlaced();
    } else {
      var p, a := rs[..|rs| - 1], rs[|rs| - 1];
      RunCursor(p);
      StepCursor(Run(p).sweep, a);
      var t := Step(Run(p).sweep, a);
      CursorPush(p, Run(p).offs, Run(p).sweep.cursor, a, t.off, t.sweep.cursor);
      assert rs == p + [a];
    }
  }

  lemma NothingPlaced()
    ensures CursorIsEnd([], [], EmptySweep.cursor)
  {
  }

  lemma StepCursor(s: Sweep, a: Request)
    requires a.align != 0
    ensures match Step(s, a)
            case RegionOverflow => true
            case Placed(t, off) => t.cursor == s.cursor || t.cursor == off + a.size
  {
    hide AlignUp, Release, BestFit, LiveBytes, TakeRange;
  }

  /** The invariant holds after every prefix of the sweep. */
  ghost predicate InvAlways(rs: seq<Request>)
    requires AllWellFormed(rs)
  {
    forall k :: 0 <= k <= |rs| && Run(rs[..k]).Done? ==> Inv(Run(rs[..k]).sweep, rs[..k], Run(rs[..k]).offs)
  }

  lemma WrapBreaks(rs: seq<Request>, k: nat)
    requires AllWellFormed(rs) && k < |rs| && Run(rs[..k]).Done? && !Room(Run(rs[..k]).sweep, rs[k])
    ensures !InvAlways(rs)
  {
    hide Room, Step, IsPow2, CursorIsEnd;
    var p, q := rs[..k], rs[..k + 1];
    var s, offs := Run(p).sweep, Run(p).offs;
    WrappedStep(s, rs[k]);
    RunCursor(p);
    assert q[..|q| - 1] == p && q[|q| - 1] == rs[k] && q == p + [rs[k]];
    assert Run(q).offs == offs + [0];
    CursorBeyond(p, offs, s.cursor, rs[k], 0, Run(q).sweep.cursor);
    NotInv(Run(q).sweep, q, Run(q).offs);
  }

  lemma NotInv(s: Sweep, rs: seq<Request>, offs: seq<U64>)
    requires |rs| == |offs| && !Inside(rs, offs, s.cursor)
    ensures !Inv(s, rs, offs)
  {
  }

  lemma CursorBeyond(p: seq<Request>, offs: seq<U64>, cursor: nat, a: Request, off: U64, low: nat)
    requires |p| == |offs| && CursorIsEnd(p, offs, cursor) && low < cursor
    ensures !Inside(p + [a], offs + [off], low)
  {
    var i :| 0 <= i < |p| && offs[i] + p[i].size == cursor;
    assert (offs + [off])[i] + (p + [a])[i].size == cursor;
  }

  /** The invariant holds throughout exactly if no step that extends the region wraps. */
  lemma RunInvExactly(rs: seq<Request>)
    requires AllWellFormed(rs) && SortedRequests(rs)
    ensures InvAlways(rs) <==> NoWrap(rs)
  {
    hide Inv, Room, Run, IsPow2, AllocCmp;
    if NoWrap(rs) {
      forall k | 0 <= k <= |rs| && Run(rs[..k]).Done?
        ensures Inv(Run(rs[..k]).sweep, rs[..k], Run(rs[..k]).offs)
      {
        var p := rs[..k];
        assert forall i :: 0 <= i < |p| ==> p[i] == rs[i];
        assert forall j :: 0 <= j < |p| ==> p[..j] == rs[..j];
        RunInv(p);
      }
    } else {
      var k :| 0 <= k < |rs| && Run(rs[..k]).Done? && !Room(Run(rs[..k]).sweep, rs[k]);
      WrapBreaks(rs, k);
    }
  }

  /* ---- peak_live ---- */

  /** The bytes a reusable request occupies at step t. */
  function BytesAt(t: nat): Request -> nat {
    (r: Request) => if !r.pinned && r.start <= t < r.end then r.size else 0
  }

  function BytesAfter(t: nat): Request -> nat {
    (r: Request) => if r.end > t then r.size else 0
  }

  /** The exact number of reusable bytes live at step t. */
  function TotalAt(rs: seq<Request>, t: nat): nat { SumBy(BytesAt(t), rs) }

  lemma {:induction false} AliveBytes(rs: seq<Request>, offs: seq<U64>, t: nat)
    requires |rs| == |offs|
    ensures LiveTotal(Alive(rs, offs, t)) == SumBy(BytesAfter(t), rs)
  {
    if rs != [] {
      var n := |rs| - 1;
      AliveBytes(rs[..n], offs[..n], t);
      var last := if rs[n].end > t then [Live(rs[n].end, offs[n], rs[n].size)] else [];
      SumByAppend(LiveSize, Alive(rs[..n], offs[..n], t), last);
      LiveTotalFew(last);
    }
  }

  lemma LiveTotalFew(l: seq<Live>)
    ensures l == [] ==> LiveTotal(l) == 0
    ensures |l| == 1 ==> LiveTotal(l) == l[0].size
  {
    if |l| == 1 {
      assert l == [l[0]];
      SumByOne(LiveSize, l[0]);
    }
  }

  lemma {:induction false} LiveBytesExact(live: seq<Live>)
    requires LiveTotal(live) < U64_SIZE
    ensures LiveBytes(live) == LiveTotal(live)
  {
    if live != [] {
      LiveBytesExact(live[..|live| - 1]);
    }
  }

  lemma TotalAtPush(rs: seq<Request>, a: Request, t: nat)
    ensures TotalAt(rs + [a], t) == TotalAt(rs, t) + BytesAt(t)(a)
    ensures SumBy(BytesAfter(t), rs + [a]) == SumBy(BytesAfter(t), rs) + BytesAfter(t)(a)
  {
    assert (rs + [a])[..|rs|] == rs;
  }

  /** From the start of the last request on, no more bytes are live than end after that start. */
  lemma TotalAtBound(rs: seq<Request>, now: nat, t: nat)
    requires now <= t && NonePinned(rs) && forall i :: 0 <= i < |rs| ==> rs[i].start <= now
    ensures TotalAt(rs, t) <= SumBy(BytesAfter(now), rs)
    ensures TotalAt(rs, now) == SumBy(BytesAfter(now), rs)
  {
    SumByMonotone(BytesAt(t), BytesAfter(now), rs);
    SumByMonotone(BytesAt(now), BytesAfter(now), rs);
    SumByMonotone(BytesAfter(now), BytesAt(now), rs);
  }

  /** peak is the largest total over all steps. */
  ghost predicate IsPeak(rs: seq<Request>, peak: nat) {
    && (forall t: nat :: TotalAt(rs, t) <= peak)
    && (exists t: nat :: TotalAt(rs, t) == peak)
  }

  lemma PeakPush(rs: seq<Request>, peak: nat, a: Request, bytes: nat)
    requires IsPeak(rs, peak) && NonePinned(rs) && !a.pinned && a.start < a.end
    requires forall i :: 0 <= i < |rs| ==> rs[i].start <= a.start
    requires bytes == SumBy(BytesAfter(a.start), rs) + a.size
    ensures IsPeak(rs + [a], if bytes > peak then bytes else peak)
  {
    var best := if bytes > peak then bytes else peak;
    forall t: nat
      ensures TotalAt(rs + [a], t) <= best
    {
      TotalAtPush(rs, a, t);
      if t >= a.start {
        TotalAtBound(rs, a.start, t);
      }
    }
    TotalAtPush(rs, a, a.start);
    TotalAtBound(rs, a.start, a.start);
    assert TotalAt(rs + [a], a.start) == bytes;
    var t: nat :| TotalAt(rs, t) == peak;
    TotalAtPush(rs, a, t);
    assert TotalAt(rs + [a], t) >= peak;
  }

  lemma PeakPinned(rs: seq<Request>, peak: nat, a: Request)
    requires IsPeak(rs, peak) && a.pinned
    ensures IsPeak(rs + [a], peak)
  {
    forall t: nat
      ensures TotalAt(rs + [a], t) == TotalAt(rs, t)
    {
      TotalAtPush(rs, a, t);
    }
    var t: nat :| TotalAt(rs, t) == peak;
    assert TotalAt(rs + [a], t) == peak;
  }

  /** What one reusable step records: the bytes alive at its start, within the region. */
  lemma StepPeak(s: Sweep, rs: seq<Request>, offs: seq<U64>, a: Request)
    requires |rs| == |offs| && Inv(s, rs, offs) && WellFormed(a) && !a.pinned
    requires Room(s, a) && NonePinned(rs) && Now(rs) <= a.start
    ensures match Step(s, a)
            case RegionOverflow => true
            case Placed(t, off) =>
              var bytes := SumBy(BytesAfter(a.start), rs) + a.size;
              && s.cursor <= t.cursor && bytes <= t.cursor
              && t.peak == if bytes > s.peak then bytes else s.peak
  {
    hide Separated, Clear, AlignUp, FreeBytes, Release, Find, Inside, LiveBytes, IsPow2, Alive, Safe;
    var (fs, live) := Release(s.fs, s.live, 0, a.start);
    ReleaseLayout(s.fs, s.live, 0, a.start, s.cursor);
    ReleaseAlive(s.fs, s.live, rs, offs, Now(rs), a.start);
    var u := s.(naive := Add64(s.naive, AlignUp(a.size, a.align)), fs := fs, live := live);
    FindLayout(u, a);
    match Find(u, a)
    case RegionOverflow =>
    case Placed(t, off) =>
      var l := Live(a.end, off, a.size);
      SumByPermutation(LiveSize, live, Alive(rs, offs, a.start));
      AliveBytes(rs, offs, a.start);
      SumByAppend(LiveSize, live, [l]);
      LiveTotalFew([l]);
      LiveBytesExact(live + [l]);
  }

  lemma SortedStarts(rs: seq<Request>, a: Request)
    requires SortedRequests(rs + [a]) && !a.pinned
    ensures NonePinned(rs) && Now(rs) <= a.start
    ensures forall i :: 0 <= i < |rs| ==> rs[i].start <= a.start
  {
    SortedStep(rs, a);
    var t := rs + [a];
    assert forall i :: 0 <= i < |rs| ==> t[i] == rs[i] && AllocCmp(t[i], t[|rs|]) <= 0;
  }

  /** peak_live is the exact maximum over all steps, and it fits the region. */
  lemma {:induction false} RunPeak(rs: seq<Request>)
    requires AllWellFormed(rs) && SortedRequests(rs) && NoWrap(rs)
    ensures match Run(rs)
            case Overflowed => true
            case Done(s, offs) => IsPeak(rs, s.peak) && s.peak <= s.cursor
  {
    hide Inv, NoWrap, SortedRequests, IsPeak, Find, Release, Add64, AlignUp;
    if rs == [] {
      EmptyPeak();
    } else {
      PrefixFacts(rs);
      var p, a := rs[..|rs| - 1], rs[|rs| - 1];
      RunPeak(p);
      RunInv(p);
      if Run(p).Done? {
        var s := Run(p).sweep;
        if a.pinned {
          PeakPinned(p, s.peak, a);
          PinnedGrows(s, a);
        } else {
          SortedStarts(p, a);
          StepPeak(s, p, Run(p).offs, a);
          PeakPush(p, s.peak, a, SumBy(BytesAfter(a.start), p) + a.size);
        }
      }
    }
  }

  lemma PinnedGrows(s: Sweep, a: Request)
    requires a.pinned && a.align != 0 && s.cursor + a.align <= U64_SIZE
    ensures match Step(s, a)
            case RegionOverflow => true
            case Placed(t, off) => s.cursor <= t.cursor && t.peak == s.peak
  {
    AlignUpBounds(s.cursor, a.align);
  }

  lemma EmptyPeak()
    ensures IsPeak([], 0)
  {
    assert TotalAt([], 0) == 0;
  }

  /* ---- region_bytes against naive_bytes ---- */

  function AlignedSize(r: Request): nat {
    if r.align == 0 then 0 else AlignUp(r.size, r.align)
  }

  lemma NaiveStep(s: Sweep, a: Request, sum: nat)
    requires WellFormed(a) && Room(s, a)
    requires s.cursor <= sum && sum % a.align == 0
    requires sum + AlignUp(a.size, a.align) < U64_SIZE && s.naive == sum
    ensures match Step(s, a)
            case RegionOverflow => true
            case Placed(t, off) => t.naive == sum + AlignUp(a.size, a.align) && t.cursor <= t.naive
    ensures (sum + AlignUp(a.size, a.align)) % a.align == 0
  {
    hide Release, TakeRange, LiveBytes, BestFit, AlignUp, IsPow2;
    AlignUpBounds(a.size, a.align);
    if s.cursor + a.align <= U64_SIZE {
      AlignUpBounds(s.cursor, a.align);
      AlignUpLeast(s.cursor, a.align, sum);
    }
    ModAdd(sum, AlignUp(a.size, a.align), a.align);
  }

  /** When all requests share one alignment, sharing never costs bytes: the
      cursor stays within the sum of the rounded sizes. */
  lemma {:induction false} RunNaive(rs: seq<Request>, align: U64)
    requires AllWellFormed(rs) && SortedRequests(rs) && NoWrap(rs) && align != 0
    requires forall i :: 0 <= i < |rs| ==> rs[i].align == align
    requires SumBy(AlignedSize, rs) < U64_SIZE
    ensures SumBy(AlignedSize, rs) % align == 0
    ensures match Run(rs)
            case Overflowed => true
            case Done(s, offs) => s.naive == SumBy(AlignedSize, rs) && s.cursor <= s.naive
  {
    hide NoWrap, SortedRequests, Step, AlignUp, IsPow2;
    if rs != [] {
      PrefixFacts(rs);
      var p, a := rs[..|rs| - 1], rs[|rs| - 1];
      RunNaive(p, align);
      AlignUpBounds(a.size, a.align);
      ModAdd(SumBy(AlignedSize, p), AlignUp(a.size, align), align);
      if Run(p).Done? {
        NaiveStep(Run(p).sweep, a, SumBy(AlignedSize, p));
      }
    }
  }

  /* ---- when nothing wraps ---- */

  /** Bytes a request can add to the region, with its alignment. */
  function Span(r: Request): nat { r.size + r.align }

  lemma SpanStep(s: Sweep, a: Request)
    requires WellFormed(a) && s.cursor + Span(a) <= U64_SIZE
    ensures match Step(s, a)
            case RegionOverflow => false
            case Placed(t, off) => t.cursor <= s.cursor + Span(a)
  {
    hide Release, TakeRange, LiveBytes, BestFit, AlignUp, IsPow2;
    AlignUpBounds(s.cursor, a.align);
  }

  lemma {:induction false} SpanRun(rs: seq<Request>)
    requires AllWellFormed(rs) && SumBy(Span, rs) <= U64_SIZE
    ensures Run(rs).Done? && Run(rs).sweep.cursor <= SumBy(Span, rs)
  {
    hide Step;
    if rs != [] {
      var p, a := rs[..|rs| - 1], rs[|rs| - 1];
      SpanRun(p);
      SpanStep(Run(p).sweep, a);
    }
  }

  /** A caller can rule both wrap-around and overflow out: it is enough that the
      sizes and alignments sum to at most 2^64. */
  lemma RoomSuffices(rs: seq<Request>)
    requires AllWellFormed(rs) && SumBy(Span, rs) <= U64_SIZE
    ensures NoWrap(rs) && Run(rs).Done?
  {
    hide Run, Step;
    SpanRun(rs);
    forall k | 0 <= k < |rs| && Run(rs[..k]).Done?
      ensures Room(Run(rs[..k]).sweep, rs[k])
    {
      SumByPrefix(Span, rs, k);
      SpanRun(rs[..k]);
      SumByPrefix(Span, rs, k + 1);
      assert rs[..k + 1][..k] == rs[..k];
    }
  }

  /** Extending the region yields fresh bytes exactly when `align_up` does not
      wrap; when it wraps, the request is placed at offset 0. */
  lemma ExtendFreshIff(s: Sweep, a: Request)
    requires WellFormed(a) && a.align <= 0x8000_0000_0000_0000
    ensures match Extend(s, a)
            case RegionOverflow => true
            case Placed(t, off) =>
              && (off >= s.cursor <==> s.cursor + a.align <= U64_SIZE)
              && (off < s.cursor ==> off == 0)
  {
    hide AlignUp;
    if s.cursor + a.align <= U64_SIZE {
      AlignUpBounds(s.cursor, a.align);
    } else {
      AlignUpWraps(s.cursor, a.align);
    }
  }

  const BIG := Request(U64_MAX - 1, 1, 0, 2, false)
  const SMALL := Request(1, 4, 0, 1, false)

  lemma BigStep()
    ensures Step(EmptySweep, BIG).Placed? && Step(EmptySweep, BIG).off == 0
    ensures var s := Step(EmptySweep, BIG).sweep;
            s.cursor == U64_MAX - 1 && s.fs == FreeState([], 0) && s.live == [Live(2, 0, U64_MAX - 1)]
  {
    hide LiveBytes, AlignUp;
    AlignUpBounds(0, 1);
  }

  lemma SmallStep(s: Sweep)
    requires s.cursor == U64_MAX - 1 && s.fs == FreeState([], 0) && s.live == [Live(2, 0, U64_MAX - 1)]
    ensures Step(s, SMALL).Placed? && Step(s, SMALL).off == 0
  {
    hide LiveBytes, AlignUp;
    AlignUpWraps(s.cursor, 4);
    assert Release(s.fs, s.live, 0, 0) == Release(s.fs, s.live, 1, 0);
  }

  /** Two requests, live together, that the overflow check lets share byte 0. */
  lemma WrapOverlaps()
    ensures WellFormed(BIG) && WellFormed(SMALL) && SortedRequests([BIG, SMALL]) && Overlap(BIG, SMALL)
    ensures Run([BIG, SMALL]).Done? && Run([BIG, SMALL]).offs == [0, 0]
    ensures !Apart(0, BIG.size, 0, SMALL.size)
  {
    hide Step;
    assert IsPow2(2);
    assert [BIG, SMALL][..1] == [BIG] && [BIG][..0] == [];
    BigStep();
    var s := Step(EmptySweep, BIG).sweep;
    assert Run([BIG]) == Done(s, [0]);
    SmallStep(s);
  }

  /* ---- the plan, in add order ---- */

  /** Every offset is aligned and inside the region, and requests that are live
      together, or of which one is pinned, share no byte. */
  ghost predicate GoodLayout(allocs: seq<Request>, offsets: seq<U64>, regionBytes: nat) {
    && |offsets| == |allocs|
    && Inside(allocs, offsets, regionBytes)
    && Safe(allocs, offsets)
  }

  lemma {:induction false} SumByEntries(f: Request -> nat, order: seq<SortEntry>)
    ensures SumBy(f, Requests(order)) == SumBy((e: SortEntry) => f(e.alloc), order)
  {
    if order != [] {
      var n := |order| - 1;
      SumByEntries(f, order[..n]);
      assert Requests(order)[..n] == Requests(order[..n]);
    }
  }

  /** Sums over the requests do not depend on the order chosen by the sort. */
  lemma SumBySorted(f: Request -> nat, order: seq<SortEntry>, allocs: seq<Request>)
    requires multiset(order) == multiset(Entries(allocs))
    ensures SumBy(f, Requests(order)) == SumBy(f, allocs)
  {
    SumByEntries(f, order);
    SumByEntries(f, Entries(allocs));
    assert Requests(Entries(allocs)) == allocs;
    SumByPermutation((e: SortEntry) => f(e.alloc), order, Entries(allocs));
  }

  lemma LayoutSorted(allocs: seq<Request>, order: seq<SortEntry>, offsets: seq<U64>, offs: seq<U64>, cap: nat)
    requires multiset(order) == multiset(Entries(allocs))
    requires |offs| == |order| && Scattered(offsets, order, offs)
    requires Inside(Requests(order), offs, cap) && Safe(Requests(order), offs)
    ensures GoodLayout(allocs, offsets, cap)
  {
    SortIndices(order, allocs);
    var rs := Requests(order);
    forall k | 0 <= k < |allocs|
      ensures offsets[k] + allocs[k].size <= cap
      ensures allocs[k].align != 0 && offsets[k] % allocs[k].align == 0
    {
      var i := SortPosition(order, allocs, k);
      assert rs[i] == allocs[k] && offsets[k] == offs[i];
    }
    forall j, k | 0 <= j < k < |allocs|
                  && (Overlap(allocs[j], allocs[k]) || allocs[j].pinned || allocs[k].pinned)
      ensures Apart(offsets[j], allocs[j].size, offsets[k], allocs[k].size)
    {
      var a := SortPosition(order, allocs, j);
      var b := SortPosition(order, allocs, k);
      assert rs[a] == allocs[j] && offsets[j] == offs[a];
      assert rs[b] == allocs[k] && offsets[k] == offs[b];
    }
  }

  lemma InsideGrow(rs: seq<Request>, offs: seq<U64>, cap: nat, cap2: nat)
    requires |rs| == |offs| && Inside(rs, offs, cap) && cap <= cap2
    ensures Inside(rs, offs, cap2)
  {
  }

  /** The alignment of the region's end. */
  function Arena(arenaAlign: U64): U64 {
    if arenaAlign != 0 then arenaAlign else 1
  }

  /** Rounding the end of the region up does not wrap. */
  predicate ArenaFits(s: Sweep, arenaAlign: U64) {
    s.cursor + Arena(arenaAlign) <= U64_SIZE
  }

  /** The region covers what the sweep used exactly if that rounding does not wrap; if it
      does, region_bytes is 0. */
  lemma RegionExactly(s: Sweep, arenaAlign: U64)
    requires s.maxEnd <= s.cursor
    ensures ArenaFits(s, arenaAlign) <==> s.cursor <= RegionBytes(s, arenaAlign)
    ensures !ArenaFits(s, arenaAlign) ==> s.cursor > 0 && RegionBytes(s, arenaAlign) == 0
    ensures ArenaFits(s, arenaAlign) ==> RegionBytes(s, arenaAlign) % Arena(arenaAlign) == 0
  {
    hide AlignUp;
    if ArenaFits(s, arenaAlign) {
      AlignUpBounds(s.cursor, Arena(arenaAlign));
    } else {
      AlignUpWraps(s.cursor, Arena(arenaAlign));
    }
  }

  /** One request of 2^64 - 1 bytes and an arena alignment of 2: accepted with region_bytes 0. */
  lemma RegionWraps()
    ensures var a := Request(U64_MAX, 1, 0, 1, false);
            && WellFormed(a) && Run([a]).Done? && NoWrap([a])
            && Run([a]).sweep.cursor == U64_MAX && RegionBytes(Run([a]).sweep, 2) == 0
  {
    hide LiveBytes, AlignUp;
    var a := Request(U64_MAX, 1, 0, 1, false);
    AlignUpBounds(0, 1);
    assert [a][..0] == [];
    assert Run([a][..0]) == Done(EmptySweep, []);
    assert Step(EmptySweep, a).Placed?;
    AlignUpWraps(U64_MAX, 2);
  }

  /** What a completed plan guarantees, for every order the sort may choose. The layout is
      good exactly if rounding up the region does not wrap either. */
  lemma PlanTheorem(allocs: seq<Request>, order: seq<SortEntry>, arenaAlign: U64, s: Sweep, offs: seq<U64>,
                    offsets: seq<U64>)
    requires forall i :: 0 <= i < |allocs| ==> WellFormed(allocs[i])
    requires IsSortOf(order, allocs) && AllWellFormed(Requests(order)) && NoWrap(Requests(order))
    requires Run(Requests(order)) == Done(s, offs) && Scattered(offsets, order, offs)
    ensures var plan := MakePlan(offsets, s, arenaAlign);
            && (GoodLayout(allocs, plan.offsets, plan.regionBytes) <==> ArenaFits(s, arenaAlign))
            && IsPeak(allocs, plan.peakLive)
            && (ArenaFits(s, arenaAlign) ==>
                  plan.peakLive <= plan.regionBytes && plan.regionBytes % Arena(arenaAlign) == 0)
            && (!ArenaFits(s, arenaAlign) ==> plan.regionBytes == 0)
  {
    hide Run, NoWrap, SortedRequests, WellFormed, Layout, Safe, Inside, AlignUp, Scattered, LiveTotal, Alive, IsPeak;
    hide RegionBytes, ArenaFits, Arena, GoodLayout;
    var rs := Requests(order);
    RunInv(rs);
    RunPeak(rs);
    RegionExactly(s, arenaAlign);
    PeakSorted(allocs, order, s.peak);
    if ArenaFits(s, arenaAlign) {
      InsideGrow(rs, offs, s.cursor, RegionBytes(s, arenaAlign));
      LayoutSorted(allocs, order, offsets, offs, RegionBytes(s, arenaAlign));
    } else {
      NoRequestsNoCursor(rs);
      EmptyRegion(allocs, order, offsets);
    }
  }

  lemma NoRequestsNoCursor(rs: seq<Request>)
    requires AllWellFormed(rs) && Run(rs).Done? && Run(rs).sweep.cursor > 0
    ensures rs != []
  {
  }

  lemma EmptyRegion(allocs: seq<Request>, order: seq<SortEntry>, offsets: seq<U64>)
    requires multiset(order) == multiset(Entries(allocs)) && order != []
    requires forall i :: 0 <= i < |allocs| ==> WellFormed(allocs[i])
    ensures !GoodLayout(allocs, offsets, 0)
  {
    SortIndices(order, allocs);
    assert |allocs| > 0 && WellFormed(allocs[0]);
  }

  lemma PeakSorted(allocs: seq<Request>, order: seq<SortEntry>, peak: nat)
    requires multiset(order) == multiset(Entries(allocs)) && IsPeak(Requests(order), peak)
    ensures IsPeak(allocs, peak)
  {
    forall t: nat
      ensures TotalAt(allocs, t) == TotalAt(Requests(order), t)
    {
      SumBySorted(BytesAt(t), order, allocs);
    }
    var t: nat :| TotalAt(Requests(order), t) == peak;
    assert TotalAt(allocs, t) == peak;
  }

  /** With one alignment and no arena rounding the region never exceeds the naive sum. */
  lemma NaiveTheorem(allocs: seq<Request>, order: seq<SortEntry>, s: Sweep, offs: seq<U64>,
                     offsets: seq<U64>, align: U64)
    requires IsSortOf(order, allocs) && AllWellFormed(Requests(order)) && NoWrap(Requests(order))
    requires Run(Requests(order)) == Done(s, offs)
    requires align != 0 && forall i :: 0 <= i < |order| ==> order[i].alloc.align == align
    requires SumBy(AlignedSize, allocs) < U64_SIZE
    ensures var plan := MakePlan(offsets, s, 0);
            && plan.naiveBytes == SumBy(AlignedSize, allocs)
            && plan.regionBytes <= plan.naiveBytes
            && plan.reuseBytes == plan.naiveBytes - plan.regionBytes
  {
    hide Run, NoWrap, SortedRequests, WellFormed, Layout, Safe, Inside, AlignUp, LiveTotal, Alive, AlignedSize;
    SumBySorted(AlignedSize, order, allocs);
    RunNaive(Requests(order), align);
    RunInv(Requests(order));
    AlignUpOne(s.cursor);
  }

  lemma AlignUpOne(v: U64)
    ensures AlignUp(v, 1) == v
  {
    if v == U64_MAX {
      assert Sub64(Add64(v, 1), 1) == v;
    }
  }

  /** The region and the offsets cannot wrap for requests of this total span. */
  ghost predicate Roomy(allocs: seq<Request>, arenaAlign: U64) {
    SumBy(Span, allocs) + arenaAlign <= U64_SIZE && SumBy(Span, allocs) < U64_SIZE
  }

  lemma RoomyPlan(allocs: seq<Request>, order: seq<SortEntry>, arenaAlign: U64)
    requires forall i :: 0 <= i < |allocs| ==> WellFormed(allocs[i])
    requires IsSortOf(order, allocs) && AllWellFormed(Requests(order)) && Roomy(allocs, arenaAlign)
    ensures NoWrap(Requests(order)) && Run(Requests(order)).Done?
    ensures ArenaFits(Run(Requests(order)).sweep, arenaAlign)
  {
    hide Run, NoWrap, SortedRequests, Span;
    SumBySorted(Span, order, allocs);
    RoomSuffices(Requests(order));
    SpanRun(Requests(order));
  }
}
