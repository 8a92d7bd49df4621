/** What the planner's sweep guarantees: requests live at the same step never
    share bytes, and the statistics are exact. The invariant of the sweep is
    that free and live ranges are pairwise disjoint inside [0, cursor). */
module PlannerSafety {
  import opened Mem
  import opened Seqs
  import opened Planner

  predicate Apart(x: nat, xs: nat, y: nat, ys: nat) {
    x + xs <= y || y + ys <= x
  }

  /** Non-empty ranges below cap, sorted, and no two of them adjacent. */
  predicate Separated(r: seq<Range>, cap: nat) {
    r != [] ==>
      && r[0].size > 0
      && r[0].off + r[0].size <= cap
      && (|r| > 1 ==> r[0].off + r[0].size < r[1].off)
      && Separated(r[1..], cap)
  }

  /** No range meets [off, off + size). */
  predicate Clear(r: seq<Range>, off: nat, size: nat) {
    r != [] ==> Apart(r[0].off, r[0].size, off, size) && Clear(r[1..], off, size)
  }

  ghost predicate LiveApart(live: seq<Live>, cap: nat) {
    && (forall i :: 0 <= i < |live| ==> live[i].size > 0 && live[i].off + live[i].size <= cap)
    && (forall i, j :: 0 <= i < j < |live| ==>
          Apart(live[i].off, live[i].size, live[j].off, live[j].size))
  }

  ghost predicate LiveClear(r: seq<Range>, live: seq<Live>) {
    forall k :: 0 <= k < |live| ==> Clear(r, live[k].off, live[k].size)
  }

  /** Free and live ranges are pairwise disjoint inside [0, cap). */
  ghost predicate Layout(r: seq<Range>, live: seq<Live>, cap: nat) {
    Separated(r, cap) && LiveApart(live, cap) && LiveClear(r, live)
  }

  function FreeBytes(r: seq<Range>): nat {
    if r == [] then 0 else r[0].size + FreeBytes(r[1..])
  }

  function LiveSize(l: Live): nat { l.size }

  function LiveTotal(live: seq<Live>): nat { SumBy(LiveSize, live) }

  /* ---- the free list ---- */

  lemma {:induction false} SeparatedAppend(a: seq<Range>, b: seq<Range>, cap: nat)
    ensures Separated(a + b, cap) <==>
            && Separated(a, cap)
            && Separated(b, cap)
            && (a != [] && b != [] ==> a[|a| - 1].off + a[|a| - 1].size < b[0].off)
  {
    if a == [] {
      assert a + b == b;
    } else {
      assert (a + b)[1..] == a[1..] + b;
      SeparatedAppend(a[1..], b, cap);
    }
  }

  lemma {:induction false} ClearAppend(a: seq<Range>, b: seq<Range>, x: nat, xs: nat)
    ensures Clear(a + b, x, xs) <==> Clear(a, x, xs) && Clear(b, x, xs)
  {
    if a == [] {
      assert a + b == b;
    } else {
      assert (a + b)[1..] == a[1..] + b;
      ClearAppend(a[1..], b, x, xs);
    }
  }

  lemma {:induction false} FreeBytesAppend(a: seq<Range>, b: seq<Range>)
    ensures FreeBytes(a + b) == FreeBytes(a) + FreeBytes(b)
  {
    if a == [] {
      assert a + b == b;
    } else {
      assert (a + b)[1..] == a[1..] + b;
      FreeBytesAppend(a[1..], b);
    }
  }

  /** The three parts of r at positions i and j. */
  lemma Parts(r: seq<Range>, i: nat, j: nat)
    requires i <= j <= |r|
    ensures r == r[..i] + (r[i..j] + r[j..])
  {
  }

  /** Replacing the middle part b of a list by one range m that touches neither side. */
  lemma JoinSeparated(a: seq<Range>, b: seq<Range>, c: seq<Range>, m: Range, cap: nat)
    requires Separated(a + (b + c), cap) && m.size > 0 && m.off + m.size <= cap
    requires a != [] ==> a[|a| - 1].off + a[|a| - 1].size < m.off
    requires c != [] ==> m.off + m.size < c[0].off
    ensures Separated(a + ([m] + c), cap)
  {
    SeparatedAppend(a, b + c, cap);
    SeparatedAppend(b, c, cap);
    SeparatedAppend([m], c, cap);
    SeparatedAppend(a, [m] + c, cap);
  }

  lemma JoinClear(a: seq<Range>, b: seq<Range>, c: seq<Range>, m: Range, x: nat, xs: nat)
    requires Clear(a + (b + c), x, xs) && Apart(m.off, m.size, x, xs)
    ensures Clear(a + ([m] + c), x, xs)
  {
    ClearAppend(a, b + c, x, xs);
    ClearAppend(b, c, x, xs);
    ClearAppend([m], c, x, xs);
    ClearAppend(a, [m] + c, x, xs);
  }

  lemma JoinBytes(a: seq<Range>, b: seq<Range>, c: seq<Range>, m: Range)
    ensures FreeBytes(a + ([m] + c)) + FreeBytes(b) == FreeBytes(a + (b + c)) + m.size
  {
    FreeBytesAppend(a, b + c);
    FreeBytesAppend(b, c);
    FreeBytesAppend([m], c);
    FreeBytesAppend(a, [m] + c);
  }

  lemma SpliceParts(r: seq<Range>, i: nat, j: nat, m: Range)
    requires i <= j <= |r|
    ensures Splice(r, i, j, m) == r[..i] + ([m] + r[j..])
  {
  }

  /** Removing the middle range m of a list. */
  lemma DropMiddle(a: seq<Range>, m: Range, c: seq<Range>, cap: nat)
    requires Separated(a + ([m] + c), cap)
    ensures Separated(a + c, cap) && Separated(a, cap) && Separated(c, cap)
    ensures m.size > 0 && m.off + m.size <= cap
    ensures a != [] ==> a[|a| - 1].off + a[|a| - 1].size < m.off
    ensures c != [] ==> m.off + m.size < c[0].off
    ensures FreeBytes(a + c) + m.size == FreeBytes(a + ([m] + c))
  {
    SeparatedAppend(a, [m] + c, cap);
    SeparatedAppend([m], c, cap);
    SeparatedAppend(a, c, cap);
    FreeBytesAppend(a, [m] + c);
    FreeBytesAppend([m], c);
    FreeBytesAppend(a, c);
  }

  lemma DropMiddleClear(a: seq<Range>, m: Range, c: seq<Range>, x: nat, xs: nat)
    requires Clear(a + ([m] + c), x, xs)
    ensures Clear(a + c, x, xs) && Apart(m.off, m.size, x, xs)
  {
    ClearAppend(a, [m] + c, x, xs);
    ClearAppend([m], c, x, xs);
    ClearAppend(a, c, x, xs);
  }

  lemma CutAt(r: seq<Range>, k: nat)
    requires k < |r|
    ensures r == r[..k] + ([r[k]] + r[k + 1..])
  {
  }

  /** The facts about position k of a separated list. */
  lemma SeparatedAt(r: seq<Range>, cap: nat, k: nat)
    requires Separated(r, cap) && k < |r|
    ensures r[k].size > 0 && r[k].off + r[k].size <= cap
    ensures k + 1 < |r| ==> r[k].off + r[k].size < r[k + 1].off
  {
    CutAt(r, k);
    DropMiddle(r[..k], r[k], r[k + 1..], cap);
  }

  lemma ClearAt(r: seq<Range>, x: nat, xs: nat, k: nat)
    requires Clear(r, x, xs) && k < |r|
    ensures Apart(r[k].off, r[k].size, x, xs)
  {
    CutAt(r, k);
    DropMiddleClear(r[..k], r[k], r[k + 1..], x, xs);
  }

  lemma FreeBytesFew(r: seq<Range>)
    ensures r == [] ==> FreeBytes(r) == 0
    ensures |r| == 1 ==> FreeBytes(r) == r[0].size
    ensures |r| == 2 ==> FreeBytes(r) == r[0].size + r[1].size
  {
    if |r| == 2 {
      assert r[1..] == [r[1]];
    }
  }

  /** The cases of the insertion, where no sum wraps. */
  lemma InsertCases(fs: FreeState, off: U64, size: U64, cap: nat, p: nat)
    requires cap < U64_SIZE && off + size <= cap && p == Position(fs.ranges, off, 0)
    requires forall k :: p - 1 <= k <= p && 0 <= k < |fs.ranges| ==> fs.ranges[k].off + fs.ranges[k].size <= cap
    ensures var r, t := fs.ranges, FreeInsert(fs, off, size).ranges;
            var left := p > 0 && r[p - 1].off + r[p - 1].size == off;
            var right := p < |r| && off + size == r[p].off;
            if left && right then
              t == Splice(r, p - 1, p + 1, Range(r[p - 1].off, r[p - 1].size + size + r[p].size))
            else if left then t == Splice(r, p - 1, p, Range(r[p - 1].off, r[p - 1].size + size))
            else if right then t == Splice(r, p, p + 1, Range(off, size + r[p].size))
            else t == r || t == Splice(r, p, p, Range(off, size))
  {
    hide Splice;
  }

  /** What the insertion of a range that is clear of the list does: the list is
      unchanged, or ranges i..j of it become m, the union of those ranges and
      the inserted one, which touches no other range. */
  lemma InsertShape(fs: FreeState, off: U64, size: U64, cap: nat) returns (i: nat, j: nat, m: Range)
    requires Separated(fs.ranges, cap) && cap < U64_SIZE
    requires size > 0 && off + size <= cap && Clear(fs.ranges, off, size)
    ensures i <= j <= |fs.ranges| && j <= i + 2
    ensures FreeInsert(fs, off, size).ranges == fs.ranges
            || FreeInsert(fs, off, size).ranges == Splice(fs.ranges, i, j, m)
    ensures m.off <= off && off + size <= m.off + m.size <= cap
    ensures i > 0 ==> fs.ranges[i - 1].off + fs.ranges[i - 1].size < m.off
    ensures j < |fs.ranges| ==> m.off + m.size < fs.ranges[j].off
    ensures m.size == size + FreeBytes(fs.ranges[i..j])
    ensures i < j && m.off < off ==> fs.ranges[i].off == m.off && off == m.off + fs.ranges[i].size
    ensures i < j && off + size < m.off + m.size ==>
              fs.ranges[j - 1].off == off + size
              && m.off + m.size == fs.ranges[j - 1].off + fs.ranges[j - 1].size
    ensures i == j ==> m == Range(off, size)
  {
    hide Separated, Clear, FreeInsert, Splice, FreeBytes;
    var r := fs.ranges;
    var p := Position(r, off, 0);
    if p > 0 {
      ClearAt(r, off, size, p - 1);
      SeparatedAt(r, cap, p - 1);
    }
    if p < |r| {
      ClearAt(r, off, size, p);
      SeparatedAt(r, cap, p);
    }
    var left := p > 0 && r[p - 1].off + r[p - 1].size == off;
    var right := p < |r| && off + size == r[p].off;
    i := if left then p - 1 else p;
    j := if right then p + 1 else p;
    if i > 0 {
      SeparatedAt(r, cap, i - 1);
    }
    FreeBytesFew(r[i..j]);
    InsertCases(fs, off, size, cap, p);
    m := Range(if left then r[p - 1].off else off,
               size + (if left then r[p - 1].size else 0) + (if right then r[p].size else 0));
  }

  /** Inserting a range that is clear of the list keeps it separated and makes
      at most the inserted bytes free. */
  lemma InsertSeparated(fs: FreeState, off: U64, size: U64, cap: nat)
    requires Separated(fs.ranges, cap) && cap < U64_SIZE
    requires size > 0 && off + size <= cap && Clear(fs.ranges, off, size)
    ensures Separated(FreeInsert(fs, off, size).ranges, cap)
    ensures FreeBytes(FreeInsert(fs, off, size).ranges) <= FreeBytes(fs.ranges) + size
  {
    hide Separated, Clear, FreeInsert, FreeBytes;
    var i, j, m := InsertShape(fs, off, size, cap);
    Parts(fs.ranges, i, j);
    SpliceParts(fs.ranges, i, j, m);
    JoinSeparated(fs.ranges[..i], fs.ranges[i..j], fs.ranges[j..], m, cap);
    JoinBytes(fs.ranges[..i], fs.ranges[i..j], fs.ranges[j..], m);
  }

  /** A merged range is as apart from another one as its parts are. */
  lemma MergedApart(r: seq<Range>, i: nat, j: nat, m: Range, off: nat, size: nat, x: nat, xs: nat)
    requires i <= j <= |r| && xs > 0 && size > 0 && Apart(off, size, x, xs)
    requires m.off <= off && off + size <= m.off + m.size
    requires i == j ==> m.off == off && m.size == size
    requires i < j ==> Apart(r[i].off, r[i].size, x, xs) && Apart(r[j - 1].off, r[j - 1].size, x, xs)
    requires i < j && m.off < off ==> r[i].off == m.off && off == m.off + r[i].size
    requires i < j && off + size < m.off + m.size ==>
               r[j - 1].off == off + size && m.off + m.size == r[j - 1].off + r[j - 1].size
    ensures Apart(m.off, m.size, x, xs)
  {
  }

  /** A range clear of the list and of the inserted range stays clear. */
  lemma InsertClear(fs: FreeState, off: U64, size: U64, cap: nat, x: nat, xs: nat)
    requires Separated(fs.ranges, cap) && cap < U64_SIZE
    requires size > 0 && off + size <= cap && Clear(fs.ranges, off, size)
    requires xs > 0 && Clear(fs.ranges, x, xs) && Apart(off, size, x, xs)
    ensures Clear(FreeInsert(fs, off, size).ranges, x, xs)
  {
    hide Separated, Clear, FreeInsert, FreeBytes, Splice;
    var i, j, m := InsertShape(fs, off, size, cap);
    if i < j {
      ClearAt(fs.ranges, x, xs, i);
      ClearAt(fs.ranges, x, xs, j - 1);
    }
    MergedApart(fs.ranges, i, j, m, off, size, x, xs);
    Parts(fs.ranges, i, j);
    SpliceParts(fs.ranges, i, j, m);
    JoinClear(fs.ranges[..i], fs.ranges[i..j], fs.ranges[j..], m, x, xs);
  }

  /* ---- release ---- */

  lemma RemoveSwapContents(live: seq<Live>, j: nat)
    requires j < |live|
    ensures multiset(RemoveSwap(live, j)) == multiset(live) - multiset{live[j]}
    ensures LiveTotal(RemoveSwap(live, j)) + live[j].size == LiveTotal(live)
  {
    var n := |live| - 1;
    MultisetRemove(live, j);
    if j < n {
      assert RemoveSwap(live, j) == live[..j] + [live[n]] + live[j + 1..n];
      assert live[..j] + live[j + 1..] == live[..j] + live[j + 1..n] + [live[n]];
    } else {
      assert RemoveSwap(live, j) == live[..j] + live[j + 1..];
    }
    SumByPermutation(LiveSize, RemoveSwap(live, j), live[..j] + live[j + 1..]);
    SumByRemove(LiveSize, live, j);
  }

  lemma RemoveSwapApart(live: seq<Live>, j: nat, cap: nat)
    requires j < |live| && LiveApart(live, cap)
    ensures LiveApart(RemoveSwap(live, j), cap)
    ensures forall x :: x in RemoveSwap(live, j) ==>
              x in live && Apart(x.off, x.size, live[j].off, live[j].size)
  {
    var t := RemoveSwap(live, j);
    var n := |live| - 1;
    forall a, b | 0 <= a < b < |t|
      ensures Apart(t[a].off, t[a].size, t[b].off, t[b].size)
    {
      assert t[a] == live[if a == j then n else a];
      assert t[b] == live[if b == j then n else b];
    }
    forall x | x in t
      ensures x in live && Apart(x.off, x.size, live[j].off, live[j].size)
    {
      var a :| 0 <= a < |t| && t[a] == x;
      assert x == live[if a == j then n else a];
    }
  }

  /** One release keeps the layout. */
  lemma ReleaseOneLayout(fs: FreeState, live: seq<Live>, j: nat, cap: nat)
    requires Layout(fs.ranges, live, cap) && cap < U64_SIZE && j < |live|
    ensures var fs2 := FreeInsert(fs, live[j].off, live[j].size);
            && Layout(fs2.ranges, RemoveSwap(live, j), cap)
            && FreeBytes(fs2.ranges) <= FreeBytes(fs.ranges) + live[j].size
  {
    var l := live[j];
    InsertSeparated(fs, l.off, l.size, cap);
    RemoveSwapApart(live, j, cap);
    var t := RemoveSwap(live, j);
    forall k | 0 <= k < |t|
      ensures Clear(FreeInsert(fs, l.off, l.size).ranges, t[k].off, t[k].size)
    {
      assert t[k] in t;
      InsertClear(fs, l.off, l.size, cap, t[k].off, t[k].size);
    }
  }

  /** Releasing keeps the layout and never makes more bytes free than it ends. */
  lemma {:induction false} ReleaseLayout(fs: FreeState, live: seq<Live>, j: nat, start: U64, cap: nat)
    requires Layout(fs.ranges, live, cap) && cap < U64_SIZE && j <= |live|
    ensures var r := Release(fs, live, j, start);
            && Layout(r.0.ranges, r.1, cap)
            && LiveTotal(r.1) + FreeBytes(r.0.ranges) <= LiveTotal(live) + FreeBytes(fs.ranges)
    decreases |live| - j
  {
    if j == |live| {
    } else if live[j].end <= start {
      ReleaseOneLayout(fs, live, j, cap);
      RemoveSwapContents(live, j);
      ReleaseLayout(FreeInsert(fs, live[j].off, live[j].size), RemoveSwap(live, j), j, start, cap);
    } else {
      ReleaseLayout(fs, live, j + 1, start, cap);
    }
  }

  /** Releasing leaves exactly the records that have not ended. */
  lemma {:induction false} ReleaseContents(fs: FreeState, live: seq<Live>, j: nat, start: U64, x: Live)
    requires j <= |live| && forall k :: 0 <= k < j ==> live[k].end > start
    ensures multiset(Release(fs, live, j, start).1)[x] == if x.end > start then multiset(live)[x] else 0
    decreases |live| - j
  {
    if j == |live| {
      assert x.end <= start ==> x !in live;
    } else if live[j].end <= start {
      RemoveSwapContents(live, j);
      ReleaseContents(FreeInsert(fs, live[j].off, live[j].size), RemoveSwap(live, j), j, start, x);
    } else {
      ReleaseContents(fs, live, j + 1, start, x);
    }
  }

  /* ---- reuse ---- */

  /** A fitting range holds the aligned block. Where rounding its offset up wraps, the range
      is too small to pass the test. */
  lemma FitsInside(r: Range, size: U64, align: U64, cap: nat)
    requires 0 < align <= 0x8000_0000_0000_0000 && size <= U64_MAX - (align - 1)
    requires r.off + r.size <= cap < U64_SIZE
    requires Fits(r, size, align)
    ensures r.off <= AlignUp(r.off, align) && AlignUp(r.off, align) + size <= r.off + r.size
    ensures AlignUp(r.off, align) % align == 0
  {
    hide AlignUp;
    if r.off + align <= U64_SIZE {
      AlignUpBounds(r.off, align);
    } else {
      AlignUpWraps(r.off, align);
    }
  }

  lemma {:induction false} AfterClear(r: seq<Range>, cap: nat, x: nat, xs: nat)
    requires Separated(r, cap) && (r != [] ==> x + xs <= r[0].off)
    ensures Clear(r, x, xs)
  {
    if r != [] {
      AfterClear(r[1..], cap, x, xs);
    }
  }

  lemma {:induction false} BeforeClear(r: seq<Range>, cap: nat, x: nat, xs: nat)
    requires Separated(r, cap)
    requires r != [] ==> r[|r| - 1].off + r[|r| - 1].size <= x
    ensures Clear(r, x, xs)
  {
    if r != [] {
      if |r| > 1 {
        SeparatedAt(r, cap, 0);
        BeforeClear(r[1..], cap, x, xs);
        FirstBeforeLast(r, cap);
      }
    }
  }

  lemma {:induction false} FirstBeforeLast(r: seq<Range>, cap: nat)
    requires Separated(r, cap) && |r| > 0
    ensures r[0].off + r[0].size <= r[|r| - 1].off + r[|r| - 1].size
  {
    if |r| > 1 {
      FirstBeforeLast(r[1..], cap);
    }
  }

  /** What lies inside the middle range meets no other range. */
  lemma InsideClear(a: seq<Range>, m: Range, c: seq<Range>, cap: nat, x: nat, xs: nat)
    requires Separated(a + ([m] + c), cap)
    requires m.off <= x && x + xs <= m.off + m.size
    ensures Clear(a + c, x, xs)
  {
    DropMiddle(a, m, c, cap);
    BeforeClear(a, cap, x, xs);
    AfterClear(c, cap, x, xs);
    ClearAppend(a, c, x, xs);
  }

  lemma InsertNonEmptySeparated(fs: FreeState, off: U64, size: U64, cap: nat)
    requires Separated(fs.ranges, cap) && cap < U64_SIZE
    requires off + size <= cap && Clear(fs.ranges, off, size)
    ensures Separated(InsertNonEmpty(fs, off, size).ranges, cap)
    ensures FreeBytes(InsertNonEmpty(fs, off, size).ranges) <= FreeBytes(fs.ranges) + size
  {
    if size > 0 {
      InsertSeparated(fs, off, size, cap);
    }
  }

  lemma InsertNonEmptyClear(fs: FreeState, off: U64, size: U64, cap: nat, x: nat, xs: nat)
    requires Separated(fs.ranges, cap) && cap < U64_SIZE
    requires off + size <= cap && Clear(fs.ranges, off, size)
    requires Clear(fs.ranges, x, xs) && Apart(off, size, x, xs)
    ensures xs > 0 ==> Clear(InsertNonEmpty(fs, off, size).ranges, x, xs)
  {
    if size > 0 && xs > 0 {
      InsertClear(fs, off, size, cap, x, xs);
    }
  }

  lemma InsertNothing(fs: FreeState, off: U64)
    ensures InsertNonEmpty(fs, off, 0) == fs
  {
  }

  /** Giving back both ends of a free range m around the block [off, off + size):
      the list stays separated and does not meet the block. */
  lemma GiveBackLayout(a: seq<Range>, m: Range, c: seq<Range>, used: nat, off: U64, size: U64, cap: nat)
    requires Separated(a + ([m] + c), cap) && cap < U64_SIZE && size > 0
    requires m.off <= off && off + size <= m.off + m.size
    ensures m.off + m.size <= cap
    ensures var v := InsertNonEmpty(FreeState(a + c, used), m.off, off - m.off);
            var w := InsertNonEmpty(v, off + size, m.off + m.size - off - size).ranges;
            && Separated(w, cap)
            && Clear(w, off, size)
            && FreeBytes(w) + size <= FreeBytes(a + ([m] + c))
  {
    hide InsertNonEmpty, Separated, Clear, FreeBytes;
    var pad, tail := off - m.off, m.off + m.size - off - size;
    var u := FreeState(a + c, used);
    DropMiddle(a, m, c, cap);
    InsideClear(a, m, c, cap, m.off, pad);
    InsideClear(a, m, c, cap, off, size);
    InsideClear(a, m, c, cap, off + size, tail);
    InsertNonEmptySeparated(u, m.off, pad, cap);
    InsertNonEmptyClear(u, m.off, pad, cap, off, size);
    InsertNonEmptyClear(u, m.off, pad, cap, off + size, tail);
    if tail > 0 {
      var v := InsertNonEmpty(u, m.off, pad);
      InsertNonEmptySeparated(v, off + size, tail, cap);
      InsertNonEmptyClear(v, off + size, tail, cap, off, size);
    } else {
      InsertNothing(InsertNonEmpty(u, m.off, pad), off + size);
    }
  }

  /** What was clear of the list stays clear of it, and is clear of the block. */
  lemma GiveBackClear(a: seq<Range>, m: Range, c: seq<Range>, used: nat, off: U64, size: U64, cap: nat,
                      x: nat, xs: nat)
    requires Separated(a + ([m] + c), cap) && cap < U64_SIZE && size > 0
    requires m.off <= off && off + size <= m.off + m.size
    requires xs > 0 && Clear(a + ([m] + c), x, xs)
    ensures m.off + m.size <= cap && Apart(off, size, x, xs)
    ensures var v := InsertNonEmpty(FreeState(a + c, used), m.off, off - m.off);
            Clear(InsertNonEmpty(v, off + size, m.off + m.size - off - size).ranges, x, xs)
  {
    hide InsertNonEmpty, Separated, Clear, FreeBytes;
    var pad, tail := off - m.off, m.off + m.size - off - size;
    var u := FreeState(a + c, used);
    DropMiddle(a, m, c, cap);
    DropMiddleClear(a, m, c, x, xs);
    InsideClear(a, m, c, cap, m.off, pad);
    InsideClear(a, m, c, cap, off + size, tail);
    InsertNonEmptySeparated(u, m.off, pad, cap);
    InsertNonEmptyClear(u, m.off, pad, cap, x, xs);
    InsertNonEmptyClear(u, m.off, pad, cap, off + size, tail);
    if tail > 0 {
      InsertNonEmptyClear(InsertNonEmpty(u, m.off, pad), off + size, tail, cap, x, xs);
    } else {
      InsertNothing(InsertNonEmpty(u, m.off, pad), off + size);
    }
  }

  lemma CarveGivesBack(fs: FreeState, b: nat, off: U64, size: U64, cap: nat)
    requires b < |fs.ranges| && cap < U64_SIZE && fs.ranges[b].off + fs.ranges[b].size <= cap
    requires fs.ranges[b].off <= off && off + size <= fs.ranges[b].off + fs.ranges[b].size
    ensures var m := fs.ranges[b];
            var v := InsertNonEmpty(FreeState(fs.ranges[..b] + fs.ranges[b + 1..], fs.used), m.off, off - m.off);
            Carve(fs, b, off, size) == InsertNonEmpty(v, off + size, m.off + m.size - off - size)
  {
    hide InsertNonEmpty;
  }

  /** Carving takes the block out of the free bytes. */
  lemma CarveLayout(fs: FreeState, b: nat, off: U64, size: U64, cap: nat)
    requires Separated(fs.ranges, cap) && cap < U64_SIZE && b < |fs.ranges| && size > 0
    requires fs.ranges[b].off <= off && off + size <= fs.ranges[b].off + fs.ranges[b].size
    ensures var t := Carve(fs, b, off, size).ranges;
            && Separated(t, cap)
            && Clear(t, off, size)
            && FreeBytes(t) + size <= FreeBytes(fs.ranges)
  {
    hide InsertNonEmpty, Separated, Clear, FreeBytes, Carve;
    CutAt(fs.ranges, b);
    GiveBackLayout(fs.ranges[..b], fs.ranges[b], fs.ranges[b + 1..], fs.used, off, size, cap);
    CarveGivesBack(fs, b, off, size, cap);
  }

  lemma CarveClear(fs: FreeState, b: nat, off: U64, size: U64, cap: nat, x: nat, xs: nat)
    requires Separated(fs.ranges, cap) && cap < U64_SIZE && b < |fs.ranges| && size > 0
    requires fs.ranges[b].off <= off && off + size <= fs.ranges[b].off + fs.ranges[b].size
    requires xs > 0 && Clear(fs.ranges, x, xs)
    ensures Clear(Carve(fs, b, off, size).ranges, x, xs) && Apart(off, size, x, xs)
  {
    hide InsertNonEmpty, Separated, Clear, FreeBytes, Carve;
    CutAt(fs.ranges, b);
    GiveBackClear(fs.ranges[..b], fs.ranges[b], fs.ranges[b + 1..], fs.used, off, size, cap, x, xs);
    CarveGivesBack(fs, b, off, size, cap);
  }
}
