/** `kk_copy_match` of compression/kraken_decode.c against the byte-at-a-time copy that
    defines LZ77: what it writes, and exactly when that is the LZ77 expansion. */
module LzCopy {
  import opened Mem

  /** LZ77: n more bytes, each equal to the one `dist` before it. */
  function Expand(s: seq<Byte>, dist: nat, n: nat): (r: seq<Byte>)
    requires 1 <= dist <= |s|
    ensures |r| == |s| + n
    decreases n
  {
    if n == 0 then s else Expand(s + [s[|s| - dist]], dist, n - 1)
  }

  /** The pattern position after k. */
  lemma ModNext(k: nat, dist: nat)
    requires dist >= 1
    ensures (k + 1) % dist == if k % dist + 1 < dist then k % dist + 1 else 0
  {
    var q, r := k / dist, k % dist;
    assert k + 1 == q * dist + (r + 1);
    if r + 1 < dist {
      DivModUnique(k + 1, dist, q, r + 1);
    } else {
      assert k + 1 == (q + 1) * dist;
      DivModUnique(k + 1, dist, q + 1, 0);
    }
  }

  /** The expansion repeats the last `dist` bytes. */
  lemma {:induction false} ExpandAt(s: seq<Byte>, dist: nat, n: nat, j: nat)
    requires 1 <= dist <= |s| && j < |s| + n
    ensures Expand(s, dist, n)[j] == if j < |s| then s[j] else s[|s| - dist + (j - |s|) % dist]
    decreases n
  {
    if n > 0 {
      var t := s + [s[|s| - dist]];
      ExpandAt(t, dist, n - 1, j);
      if j >= |t| {
        ModNext(j - |t|, dist);
      } else if j == |s| {
        assert 0 % dist == 0;
      }
    }
  }

  /** Where the last doubling step of a short-distance copy starts. */
  function LastStart(i: nat, n: nat): (k: nat)
    requires 1 <= i < n
    ensures i <= k < n <= 2 * k
    decreases n - i
  {
    if n - i <= i then i else LastStart(2 * i, n)
  }

  /** Which byte of the pattern is written at position j. */
  function Source(dist: nat, n: nat, j: nat): nat
    requires 1 <= dist && j < n
  {
    if dist >= 8 || n <= dist || j < LastStart(dist, n) then j % dist
    else (j - (n - LastStart(dist, n))) % dist
  }

  /** What the code writes behind s. */
  function Written(s: seq<Byte>, dist: nat, n: nat): (r: seq<Byte>)
    requires 1 <= dist <= |s|
    ensures |r| == |s| + n
  {
    s + seq(n, j requires 0 <= j < n => SourceBound(dist, n, j); s[|s| - dist + Source(dist, n, j)])
  }

  lemma SourceBound(dist: nat, n: nat, j: nat)
    requires 1 <= dist && j < n
    ensures Source(dist, n, j) < dist
  {
  }

  /** The distances and lengths for which the copy is right whatever the bytes are. */
  predicate Faithful(dist: nat, n: nat)
    requires dist >= 1
  {
    dist >= 8 || n <= dist || n % dist == 0
  }

  /** The last step starts at a multiple of the distance. */
  lemma {:induction false} LastStartMultiple(dist: nat, i: nat, n: nat)
    requires 1 <= dist && 1 <= i < n && i % dist == 0
    ensures LastStart(i, n) % dist == 0
    decreases n - i
  {
    if n - i > i {
      ModAdd(i, i, dist);
      LastStartMultiple(dist, 2 * i, n);
    }
  }

  lemma ModShift(j: nat, s: nat, d: nat)
    requires d >= 1 && s <= j && s % d == 0
    ensures (j - s) % d == j % d
  {
    var p, q, r := s / d, j / d, j % d;
    assert s == p * d && j == q * d + r;
    assert (q - p) * d == q * d - p * d;
    SmallProduct(q - p, d);
    DivModUnique(j - s, d, q - p, r);
  }

  lemma ModSelf(d: nat)
    requires d >= 1
    ensures d % d == 0
  {
    DivModUnique(d, d, 1, 0);
  }

  lemma FaithfulByte(s: seq<Byte>, dist: nat, n: nat, j: nat)
    requires 1 <= dist <= |s| && Faithful(dist, n) && j < n
    ensures Written(s, dist, n)[|s| + j] == Expand(s, dist, n)[|s| + j]
  {
    hide Expand, Source, Faithful;
    ExpandAt(s, dist, n, |s| + j);
    FaithfulSource(dist, n, j);
    SourceBound(dist, n, j);
  }

  /** For those the code is LZ77. */
  lemma FaithfulIsExpand(s: seq<Byte>, dist: nat, n: nat)
    requires 1 <= dist <= |s| && Faithful(dist, n)
    ensures Written(s, dist, n) == Expand(s, dist, n)
  {
    hide Expand, Source, Faithful;
    forall p | 0 <= p < |s| + n
      ensures Written(s, dist, n)[p] == Expand(s, dist, n)[p]
    {
      if p < |s| {
        ExpandAt(s, dist, n, p);
      } else {
        FaithfulByte(s, dist, n, p - |s|);
      }
    }
  }

  lemma FaithfulSource(dist: nat, n: nat, j: nat)
    requires 1 <= dist && j < n && Faithful(dist, n)
    ensures Source(dist, n, j) == j % dist
  {
    hide LastStart;
    if dist < 8 && n > dist {
      var i := LastStart(dist, n);
      ModSelf(dist);
      LastStartMultiple(dist, dist, n);
      ModShift(n, i, dist);
      if j >= i {
        ModShift(j, n - i, dist);
      }
    }
  }

  /** The pattern 0, 1, 2, ... */
  function Ramp(d: nat): (s: seq<Byte>)
    requires d < 256
    ensures |s| == d && forall j :: 0 <= j < d ==> s[j] == j
  {
    if d == 0 then [] else Ramp(d - 1) + [d - 1]
  }

  /** For all others some bytes come out wrong. */
  lemma UnfaithfulDiffers(dist: nat, n: nat)
    requires dist >= 1 && !Faithful(dist, n)
    ensures Written(Ramp(dist), dist, n) != Expand(Ramp(dist), dist, n)
  {
    hide Expand, LastStart, Ramp;
    var s, i := Ramp(dist), LastStart(dist, n);
    ModSelf(dist);
    LastStartMultiple(dist, dist, n);
    ModShift(n, i, dist);
    ExpandAt(s, dist, n, |s| + i);
    SourceBound(dist, n, i);
    var step := n - i;
    if (i - step) % dist == 0 {
      ModShift(i, i - step, dist);
    }
  }

  /** The copy is the LZ77 expansion for every content exactly when the distance is at least
      eight, or the match is no longer than the distance, or a multiple of it. */
  lemma FaithfulExactly(dist: nat, n: nat)
    requires dist >= 1
    ensures Faithful(dist, n) <==>
            forall s: seq<Byte> :: |s| >= dist ==> Written(s, dist, n) == Expand(s, dist, n)
  {
    hide Written, Expand;
    if Faithful(dist, n) {
      forall s: seq<Byte> | |s| >= dist
        ensures Written(s, dist, n) == Expand(s, dist, n)
      {
        FaithfulIsExpand(s, dist, n);
      }
    } else {
      UnfaithfulDiffers(dist, n);
    }
  }

  /* ---- when the copy ends ---- */

  /** One turn of the doubling loop: i moves on by itself, but not past n. */
  function DoubleStep(i: nat, n: nat): (j: nat)
    requires i <= n
    ensures i <= j <= n
  {
    i + if i > n - i then n - i else i
  }

  /** The position after some turns. */
  function Doubled(i: nat, n: nat, turns: nat): (j: nat)
    requires i <= n
    ensures i <= j <= n
  {
    if turns == 0 then i else DoubleStep(Doubled(i, n, turns - 1), n)
  }

  /** Where the first loop leaves a short-distance copy. */
  function PeriodEnd(dist: nat, n: nat): (i: nat)
    ensures i <= n
  {
    if dist < n then dist else n
  }

  /** The copy reaches its end: the eight-byte loops always do, the doubling loop after
      some number of turns. */
  ghost predicate CopyEnds(dist: nat, n: nat) {
    dist >= 8 || exists turns: nat :: Doubled(PeriodEnd(dist, n), n, turns) == n
  }

  /** From position 0 doubling gets nowhere. */
  lemma {:induction false} ZeroStays(n: nat, turns: nat)
    ensures Doubled(0, n, turns) == 0
  {
    if turns > 0 {
      ZeroStays(n, turns - 1);
    }
  }

  /** From anywhere else every turn gains a byte. */
  lemma {:induction false} DoublingGains(i: nat, n: nat, turns: nat)
    requires 1 <= i <= n
    ensures Doubled(i, n, turns) >= if i + turns < n then i + turns else n
  {
    if turns > 0 {
      DoublingGains(i, n, turns - 1);
    }
  }

  /** A copy ends exactly if its distance is not 0 or there is nothing to copy. */
  lemma CopyEndsExactly(dist: nat, n: nat)
    ensures CopyEnds(dist, n) <==> dist >= 1 || n == 0
  {
    var i := PeriodEnd(dist, n);
    if dist >= 1 && n >= 1 {
      DoublingGains(i, n, n);
    } else if n == 0 {
      assert Doubled(i, n, 0) == n;
    } else {
      forall turns: nat
        ensures Doubled(i, n, turns) != n
      {
        ZeroStays(n, turns);
      }
    }
  }

  /* ---- the code ---- */

  /** Positions done so far hold what Written says. */
  ghost predicate Done(b: seq<Byte>, was: seq<Byte>, dst: nat, dist: nat, n: nat, i: nat)
    requires 1 <= dist <= dst && dst + n <= |b| == |was| && i <= n
  {
    && b[..dst] == was[..dst] && b[dst + n..] == was[dst + n..]
    && forall p :: dst <= p < dst + i ==> b[p] == was[dst - dist + (p - dst) % dist]
  }

  lemma ModStep(j: nat, d: nat)
    requires d >= 1
    ensures j < d ==> j % d == j
    ensures j >= d ==> (j - d) % d == j % d
  {
    if j < d {
      DivModUnique(j, d, 0, j);
    } else {
      ModSelf(d);
      ModShift(j, d, d);
    }
  }

  /** Copying at most `dist` bytes from `dist` before continues the pattern. */
  lemma ChunkDone(b: seq<Byte>, b2: seq<Byte>, was: seq<Byte>, dst: nat, dist: nat, n: nat, i: nat, c: nat)
    requires 1 <= dist <= dst && dst + n <= |b| == |was| == |b2| && i + c <= n && c <= dist
    requires Done(b, was, dst, dist, n, i)
    requires forall p :: 0 <= p < |b| && !(dst + i <= p < dst + i + c) ==> b2[p] == b[p]
    requires forall p :: dst + i <= p < dst + i + c ==> b2[p] == b[p - dist]
    ensures Done(b2, was, dst, dist, n, i + c)
  {
    forall p | dst <= p < dst + i + c
      ensures b2[p] == was[dst - dist + (p - dst) % dist]
    {
      if p >= dst + i {
        ModStep(p - dst, dist);
        if p - dst < dist {
          assert b[..dst][p - dist] == was[..dst][p - dist];
        } else {
          assert b[p - dist] == was[dst - dist + (p - dist - dst) % dist];
        }
      }
    }
    assert b2[..dst] == b[..dst];
    assert b2[dst + n..] == b[dst + n..];
  }

  /** Doubling the written part continues the pattern, because it is a whole number of periods. */
  lemma DoublingDone(b: seq<Byte>, b2: seq<Byte>, was: seq<Byte>, dst: nat, dist: nat, n: nat, i: nat)
    requires 1 <= dist <= dst && dst + n <= |b| == |was| == |b2| && i < n - i && i % dist == 0
    requires Done(b, was, dst, dist, n, i)
    requires forall p :: 0 <= p < |b| && !(dst + i <= p < dst + i + i) ==> b2[p] == b[p]
    requires forall p :: dst + i <= p < dst + i + i ==> b2[p] == b[p - i]
    ensures Done(b2, was, dst, dist, n, i + i)
  {
    forall p | dst <= p < dst + i + i
      ensures b2[p] == was[dst - dist + (p - dst) % dist]
    {
      if p >= dst + i {
        ModShift(p - dst, i, dist);
      }
    }
    assert b2[..dst] == b[..dst];
    assert b2[dst + n..] == b[dst + n..];
  }

  /** Everything is written. */
  lemma AllDone(b: seq<Byte>, was: seq<Byte>, dst: nat, dist: nat, n: nat)
    requires 1 <= dist <= dst && dst + n <= |b| == |was|
    requires Done(b, was, dst, dist, n, n) && (dist >= 8 || n <= dist)
    ensures b[..dst + n] == Written(was[..dst], dist, n) && b[dst + n..] == was[dst + n..]
  {
    forall p | dst <= p < dst + n
      ensures At(b, was, dst, dist, n, p)
    {
      SourceBound(dist, n, p - dst);
    }
    FromSource(b, was, dst, dist, n);
  }

  /** Position p holds what Written says. */
  predicate At(b: seq<Byte>, was: seq<Byte>, dst: nat, dist: nat, n: nat, p: nat)
    requires 1 <= dist <= dst <= p < dst + n <= |b| == |was|
  {
    SourceBound(dist, n, p - dst);
    b[p] == was[dst - dist + Source(dist, n, p - dst)]
  }

  lemma FromSource(b: seq<Byte>, was: seq<Byte>, dst: nat, dist: nat, n: nat)
    requires 1 <= dist <= dst && dst + n <= |b| == |was| && b[..dst] == was[..dst]
    requires forall p :: dst <= p < dst + n ==> At(b, was, dst, dist, n, p)
    ensures b[..dst + n] == Written(was[..dst], dist, n)
  {
    hide Source;
    var w := Written(was[..dst], dist, n);
    forall p | 0 <= p < dst + n
      ensures b[p] == w[p]
    {
      if p < dst {
        assert b[..dst][p] == was[..dst][p];
      } else {
        SourceBound(dist, n, p - dst);
        assert At(b, was, dst, dist, n, p);
      }
    }
  }

  /** The last doubling step copies the tail of the written part. */
  lemma LastStepDone(b: seq<Byte>, b2: seq<Byte>, was: seq<Byte>, dst: nat, dist: nat, n: nat, i: nat)
    requires 1 <= dist <= dst && dst + n <= |b| == |was| == |b2| && dist < 8
    requires dist <= i < n && n - i <= i && LastStart(dist, n) == i
    requires Done(b, was, dst, dist, n, i)
    requires forall p :: 0 <= p < |b| && !(dst + i <= p < dst + n) ==> b2[p] == b[p]
    requires forall p :: dst + i <= p < dst + n ==> b2[p] == b[p - (n - i)]
    ensures b2[..dst + n] == Written(was[..dst], dist, n) && b2[dst + n..] == was[dst + n..]
  {
    hide LastStart, At, Source;
    forall p | dst <= p < dst + n
      ensures At(b2, was, dst, dist, n, p)
    {
      LastByte(b, b2, was, dst, dist, n, i, p);
    }
    assert b2[..dst] == b[..dst];
    FromSource(b2, was, dst, dist, n);
    assert b2[dst + n..] == b[dst + n..];
  }

  lemma LastByte(b: seq<Byte>, b2: seq<Byte>, was: seq<Byte>, dst: nat, dist: nat, n: nat, i: nat, p: nat)
    requires 1 <= dist <= dst <= p < dst + n <= |b| == |was| == |b2| && dist < 8
    requires dist <= i < n && n - i <= i && LastStart(dist, n) == i
    requires Done(b, was, dst, dist, n, i)
    requires b2[p] == if p < dst + i then b[p] else b[p - (n - i)]
    ensures At(b2, was, dst, dist, n, p)
  {
    hide LastStart;
    var j := p - dst;
    SourceBound(dist, n, j);
    var q := if p < dst + i then p else p - (n - i);
    assert b[q] == was[dst - dist + (q - dst) % dist];
    assert q - dst == if j < i then j else j - (n - i);
  }

  /** `kk_copy_match` inside one buffer, for every distance including 0. The source does not
      lie behind the destination. */
  method CopyMatch(buf: array<Byte>, dst: nat, dist: nat, n: nat) returns (ends: bool)
    requires dist <= dst && dst + n <= buf.Length
    modifies buf
    ensures ends <==> CopyEnds(dist, n)
    ensures ends && dist >= 1 ==> buf[..dst + n] == Written(old(buf[..dst]), dist, n)
    ensures dist == 0 ==> buf[..] == old(buf[..])
    ensures buf[dst + n..] == old(buf[dst + n..])
  {
    hide Written;
    if dist >= 8 {
      CopyLong(buf, dst, dist, n);
      return true;
    }
    ends := CopyShort(buf, dst, dist, n);
  }

  /** Eight bytes at a time, then the remaining ones. */
  method CopyLong(buf: array<Byte>, dst: nat, dist: nat, n: nat)
    requires 8 <= dist <= dst && dst + n <= buf.Length
    modifies buf
    ensures buf[..dst + n] == Written(old(buf[..dst]), dist, n)
    ensures buf[dst + n..] == old(buf[dst + n..])
  {
    hide Written, Done, LastStart;
    ghost var was := buf[..];
    var i := 0;
    NothingDone(was, dst, dist, n);
    while i + 8 <= n
      invariant 0 <= i <= n && Done(buf[..], was, dst, dist, n, i)
      decreases n - i
    {
      ghost var b := buf[..];
      forall p | dst + i <= p < dst + i + 8 {
        buf[p] := buf[p - dist];
      }
      ChunkDone(b, buf[..], was, dst, dist, n, i, 8);
      i := i + 8;
    }
    while i < n
      invariant 0 <= i <= n && Done(buf[..], was, dst, dist, n, i)
      decreases n - i
    {
      ghost var b := buf[..];
      buf[dst + i] := buf[dst - dist + i];
      ChunkDone(b, buf[..], was, dst, dist, n, i, 1);
      i := i + 1;
    }
    AllDone(buf[..], was, dst, dist, n);
  }

  lemma NothingDone(b: seq<Byte>, dst: nat, dist: nat, n: nat)
    requires 1 <= dist <= dst && dst + n <= |b|
    ensures Done(b, b, dst, dist, n, 0)
  {
  }

  /** The first period. */
  method CopyPeriod(buf: array<Byte>, dst: nat, dist: nat, n: nat) returns (i: nat)
    requires dist <= dst && dst + n <= buf.Length
    modifies buf
    ensures i == PeriodEnd(dist, n)
    ensures dist >= 1 ==> Done(buf[..], old(buf[..]), dst, dist, n, i)
    ensures dist == 0 ==> buf[..] == old(buf[..])
  {
    hide Done;
    ghost var was := buf[..];
    i := 0;
    if dist >= 1 {
      NothingDone(was, dst, dist, n);
    }
    while i < dist && i < n
      invariant 0 <= i <= n && i <= dist
      invariant dist >= 1 ==> Done(buf[..], was, dst, dist, n, i)
      invariant dist == 0 ==> buf[..] == was
      decreases n - i
    {
      ghost var b := buf[..];
      buf[dst + i] := buf[dst - dist + i];
      ChunkDone(b, buf[..], was, dst, dist, n, i, 1);
      i := i + 1;
    }
  }

  /** `memcpy` of the last `step` bytes before position at. */
  method CopyTail(buf: array<Byte>, at: nat, step: nat)
    requires step <= at && at + step <= buf.Length
    modifies buf
    ensures forall p :: 0 <= p < buf.Length && !(at <= p < at + step) ==> buf[p] == old(buf[p])
    ensures forall p :: at <= p < at + step ==> buf[p] == old(buf[p - step])
  {
    forall p | at <= p < at + step {
      buf[p] := buf[p - step];
    }
  }

  /** How far the doubling loop has come. */
  ghost predicate Doubling(b: seq<Byte>, was: seq<Byte>, dst: nat, dist: nat, n: nat, i: nat)
    requires 1 <= dist <= dst && dst + n <= |b| == |was| && i <= n
  {
    if i < n then dist <= i && i % dist == 0 && LastStart(i, n) == LastStart(dist, n) && Done(b, was, dst, dist, n, i)
    else b[..dst + n] == Written(was[..dst], dist, n) && b[dst + n..] == was[dst + n..]
  }

  lemma StartDoubling(b: seq<Byte>, was: seq<Byte>, dst: nat, dist: nat, n: nat)
    requires 1 <= dist <= dst && dst + n <= |b| == |was|
    requires Done(b, was, dst, dist, n, PeriodEnd(dist, n))
    ensures Doubling(b, was, dst, dist, n, PeriodEnd(dist, n))
  {
    hide Done, Written, LastStart;
    ModSelf(dist);
    if n <= dist {
      AllDone(b, was, dst, dist, n);
    }
  }

  lemma DoublingStep(b: seq<Byte>, b2: seq<Byte>, was: seq<Byte>, dst: nat, dist: nat, n: nat, i: nat)
    requires 1 <= dist <= dst && dst + n <= |b| == |was| == |b2| && dist < 8 && i < n
    requires Doubling(b, was, dst, dist, n, i)
    requires var step := DoubleStep(i, n) - i;
             && (forall p :: 0 <= p < |b| && !(dst + i <= p < dst + i + step) ==> b2[p] == b[p])
             && (forall p :: dst + i <= p < dst + i + step ==> b2[p] == b[p - step])
    ensures Doubling(b2, was, dst, dist, n, DoubleStep(i, n))
  {
    hide Done, Written, LastStart;
    LastStartStep(i, n);
    if n - i <= i {
      LastStepDone(b, b2, was, dst, dist, n, i);
    } else {
      DoublingDone(b, b2, was, dst, dist, n, i);
      ModAdd(i, i, dist);
    }
  }

  /** The first period, then doubling. The model gives up after n turns: a copy that is not
      done by then never is. */
  method CopyShort(buf: array<Byte>, dst: nat, dist: nat, n: nat) returns (ends: bool)
    requires dist <= dst && dist < 8 && dst + n <= buf.Length
    modifies buf
    ensures ends <==> CopyEnds(dist, n)
    ensures ends && dist >= 1 ==> buf[..dst + n] == Written(old(buf[..dst]), dist, n)
    ensures dist == 0 ==> buf[..] == old(buf[..])
    ensures buf[dst + n..] == old(buf[dst + n..])
  {
    hide Written, Done, LastStart, Doubling, CopyEnds;
    ghost var was := buf[..];
    var i := CopyPeriod(buf, dst, dist, n);
    if dist >= 1 {
      StartDoubling(buf[..], was, dst, dist, n);
    }
    var turns := 0;
    while i < n && turns < n
      invariant i <= n && turns <= n && i == Doubled(PeriodEnd(dist, n), n, turns)
      invariant dist >= 1 ==> Doubling(buf[..], was, dst, dist, n, i)
      invariant dist == 0 ==> i == 0 && buf[..] == was
      decreases n - turns
    {
      ghost var b := buf[..];
      var step := i;
      if step > n - i {
        step := n - i;
      }
      CopyTail(buf, dst + i, step);
      if dist >= 1 {
        DoublingStep(b, buf[..], was, dst, dist, n, i);
      }
      i := i + step;
      turns := turns + 1;
    }
    ends := i == n;
    CopyEndsExactly(dist, n);
    if dist >= 1 && n >= 1 {
      DoublingGains(PeriodEnd(dist, n), n, turns);
    }
    if dist >= 1 {
      DoublingAll(buf[..], was, dst, dist, n);
    }
  }

  lemma DoublingAll(b: seq<Byte>, was: seq<Byte>, dst: nat, dist: nat, n: nat)
    requires 1 <= dist <= dst && dst + n <= |b| == |was| && Doubling(b, was, dst, dist, n, n)
    ensures b[..dst + n] == Written(was[..dst], dist, n) && b[dst + n..] == was[dst + n..]
  {
  }

  lemma LastStartStep(i: nat, n: nat)
    requires 1 <= i < n
    ensures n - i <= i ==> LastStart(i, n) == i
    ensures n - i > i ==> LastStart(i, n) == LastStart(i + i, n)
  {
  }
}
