/** What allocation and release of the buddy allocator rest on: the order of a
    request, the place of a payload, and when a request must fail. */
module BuddyFacts {
  import opened Mem
  import opened BuddyTree
  import opened BuddyMemory
  import opened BuddySteps

  const NULL: nat := 0
  const HEADER_BYTES: nat := 32

  /** The guard of `pai_buddy_alloc`: no zero size, a power-of-two alignment, and
      `size + align + header` in 64 bits. */
  predicate WellFormed(len: U64, align: U64) {
    len > 0 && IsPow2(align) && len + align + HEADER_BYTES <= U64_MAX
  }

  /** Bytes a request needs: payload, worst alignment gap, header. */
  function Need(len: nat, align: nat): nat { len + align + HEADER_BYTES }

  /** Smallest order, from o on, whose blocks have at least `need` bytes. */
  function OrderFor(need: nat, o: nat): (r: nat)
    requires o >= MIN_ORDER
    requires o > MIN_ORDER ==> BlockBytes(o - 1) < need
    ensures r >= o && need <= BlockBytes(r)
    ensures r > MIN_ORDER ==> BlockBytes(r - 1) < need
    decreases if need > BlockBytes(o) then need - BlockBytes(o) else 0
  {
    if need <= BlockBytes(o) then o else OrderFor(need, o + 1)
  }

  /** The order is determined by its bounds. */
  lemma OrderUnique(need: nat, r: nat)
    requires r >= MIN_ORDER && need <= BlockBytes(r)
    requires r > MIN_ORDER ==> BlockBytes(r - 1) < need
    ensures OrderFor(need, MIN_ORDER) == r
  {
    var q := OrderFor(need, MIN_ORDER);
    if q < r {
      WordsMonotone(q, r - 1);
    } else if r < q {
      WordsMonotone(r, q - 1);
    }
  }

  /** The clamped logarithm of `pai_buddy_alloc` is that order, as far as the region goes. */
  lemma ClampedLog(need: nat, log: nat, maxOrder: nat)
    requires MIN_ORDER < maxOrder <= 30 && log <= 63
    requires need <= Pow2(log) || log == 63
    requires log > 0 ==> Pow2(log - 1) < need
    ensures var o := if log < MIN_ORDER then MIN_ORDER else log;
            && (o <= maxOrder <==> need <= BlockBytes(maxOrder))
            && (o <= maxOrder ==> OrderFor(need, MIN_ORDER) == o)
  {
    var o := if log < MIN_ORDER then MIN_ORDER else log;
    if o <= maxOrder {
      Pow2Monotone(log, o);
      WordsBytes(o);
      if o > MIN_ORDER {
        WordsBytes(o - 1);
      }
      OrderUnique(need, o);
      WordsMonotone(o, maxOrder);
    } else {
      WordsBytes(maxOrder);
      Pow2Monotone(maxOrder, log - 1);
    }
  }

  lemma RegionOrder(bytes: nat, order: nat)
    requires IsPow2(bytes) && 128 <= bytes <= Pow2(30) && Pow2(order) <= bytes < Pow2(order + 1)
    ensures MIN_ORDER < order <= 30 && bytes == BlockBytes(order) && bytes / 8 == Words(order)
  {
    var k := IsPow2Exponent(bytes);
    Pow2Values();
    if k < order {
      Pow2Monotone(k, order);
    } else if order < k {
      Pow2Monotone(order + 1, k);
    }
    if order <= MIN_ORDER {
      Pow2Monotone(order, MIN_ORDER);
    } else if order > 30 {
      Pow2Monotone(30, order);
    }
    WordsBytes(order);
  }

  /** The first state: one free block of the highest order. */
  lemma OneBlockGood(m: seq<nat>, heads: seq<nat>, base: nat, lists: seq<seq<nat>>, k: nat, h0: seq<nat>)
    requires MIN_ORDER <= k < |h0| == |lists| && |m| == Words(k)
    requires forall o :: 0 <= o < |h0| ==> h0[o] == NULL
    requires heads == h0[k := Addr(base, 0)]
    requires forall o :: 0 <= o < |lists| ==> lists[o] == (if o == k then [0] else [])
    requires m[0] == MAGIC_FREE && m[1] == k && m[2] == NULL
    ensures Good(m, heads, base, lists, Free, k, 0)
  {
    forall o | 0 <= o < |lists|
      ensures ListOk(m, heads[o], base, lists[o], Free, k, o)
    {
      if o == k {
        assert [0][1..] == [];
        assert Chain(m, base, NULL, []);
      }
    }
  }

  /** A list is empty exactly when its head is null. */
  lemma HeadIsEmpty(m: seq<nat>, heads: seq<nat>, base: nat, lists: seq<seq<nat>>, t: Tree, k: nat, used: nat, o: nat)
    requires Good(m, heads, base, lists, t, k, used) && o <= k && base > 0
    ensures |heads| == |lists| && k < |lists|
    ensures heads[o] == NULL <==> lists[o] == []
    ensures heads[o] == NULL <==> FreeAt(t, k, 0, o) == {}
  {
    var q := lists[o];
    assert ListOk(m, heads[o], base, q, t, k, o);
    if q != [] {
      assert q[0] in q;
    }
  }

  /** `block_off ^ size` names the sibling of the held block, and its header says FREE
      with the same order exactly when the sibling is one whole free block. */
  lemma SiblingTest(m: seq<nat>, heads: seq<nat>, base: nat, lists: seq<seq<nat>>, t: Tree, k: nat, used: nat,
                    w: nat, o: nat)
    requires Carrying(m, heads, base, lists, t, k, used, w, o) && o < k
    ensures var b := BuddyOf(w, Words(o));
            && b == Sibling(k, w, o) && 0 <= b && b + 1 < |m| && HasNode(t, k, b, o)
            && (b == w + Words(o) || b == w - Words(o))
            && (m[b] == MAGIC_FREE && m[b + 1] == o <==> Sub(t, k, b, o) == Free)
            && (Sub(t, k, b, o) == Free ==> o < |lists| && b in lists[o])
  {
    hide Words, HasNode, Sub, ListsOk, Coalesced, UsedBytes, Rep, RepEx, FreeAt;
    BuddyIsSibling(t, k, w, o);
    var b := Sibling(k, w, o);
    SiblingNode(t, k, w, o);
    ExSibling(m, base, t, k, 0, w, o);
    HeaderFirst(m, base, Sub(t, k, b, o), o, b, o);
    if Sub(t, k, b, o) == Free {
      FreeAtNode(t, k, 0, o, b);
      FreeListed(m, heads, base, lists, t, k, o, b);
    }
  }

  lemma FreeListed(m: seq<nat>, heads: seq<nat>, base: nat, lists: seq<seq<nat>>, t: Tree, k: nat, o: nat, b: nat)
    requires Deep(t, k) && ListsOk(m, heads, base, lists, t, k) && o <= k && b in FreeAt(t, k, 0, o)
    ensures o < |lists| && b in lists[o]
  {
    assert ListOk(m, heads[o], base, lists[o], t, k, o);
  }

  lemma GoodTree(m: seq<nat>, heads: seq<nat>, base: nat, lists: seq<seq<nat>>, t: Tree, k: nat, used: nat)
    requires Good(m, heads, base, lists, t, k, used)
    ensures Deep(t, k) && Coalesced(t)
  {
  }

  lemma OneList(m: seq<nat>, heads: seq<nat>, base: nat, lists: seq<seq<nat>>, t: Tree, k: nat, o: nat)
    requires Deep(t, k) && ListsOk(m, heads, base, lists, t, k) && o < |lists|
    ensures Chain(m, base, heads[o], lists[o])
  {
    assert ListOk(m, heads[o], base, lists[o], t, k, o);
  }

  /** Following one link of a list. */
  lemma ChainStep(m: seq<nat>, base: nat, node: nat, q: seq<nat>, i: nat)
    requires i <= |q| && base > 0 && Chain(m, base, node, q[i..])
    ensures node == NULL <==> i == |q|
    ensures i < |q| ==> node == Addr(base, q[i]) && q[i] + 2 < |m| && Chain(m, base, m[q[i] + 2], q[i + 1..])
  {
    if i < |q| {
      assert q[i..][1..] == q[i + 1..];
    }
  }

  lemma CutOut(m: seq<nat>, heads: seq<nat>, m2: seq<nat>, heads2: seq<nat>,
               lists: seq<seq<nat>>, lists2: seq<seq<nat>>, o: nat, b: nat, i: nat)
    requires o < |lists| == |heads| && b + 2 < |m| && i < |lists[o]| && lists[o][i] == b
    requires lists2 == lists[o := lists[o][..i] + lists[o][i + 1..]]
    requires if i == 0 then m2 == m && heads2 == heads[o := m[b + 2]]
             else lists[o][i - 1] + 2 < |m| && heads2 == heads && m2 == m[lists[o][i - 1] + 2 := m[b + 2]]
    ensures Unlinked(m, heads, m2, heads2, lists, lists2, o, b)
  {
  }

  /* ---- the place of a payload ---- */

  /** The payload starts at the first aligned address behind the header of block w. */
  predicate Placed(base: nat, w: nat, align: nat, word: nat) {
    && align > 0 && Addr(base, word) % align == 0
    && Addr(base, w) + HEADER_BYTES <= Addr(base, word) < Addr(base, w) + HEADER_BYTES + align
  }

  lemma ModDivides(x: nat, s: nat, d: nat)
    requires s > 0 && d > 0 && x % s == 0 && s % d == 0
    ensures x % d == 0
  {
    var a, b := x / s, s / d;
    assert x == a * s && s == b * d;
    assert a * (b * d) == (a * b) * d;
    MultipleMod(a * b, d);
  }

  lemma {:induction false} WordsByEight(k: nat)
    requires k >= MIN_ORDER
    ensures Words(k) % 8 == 0
  {
    if k > MIN_ORDER {
      WordsByEight(k - 1);
    }
  }

  lemma {:induction false} NodeByEight(t: Tree, k: nat, w: nat, o: nat)
    requires MIN_ORDER <= o && HasNode(t, k, w, o)
    ensures w % 8 == 0
    decreases k
  {
    if o < k {
      if w < Words(k - 1) {
        NodeByEight(t.left, k - 1, w, o);
      } else {
        NodeByEight(t.right, k - 1, w - Words(k - 1), o);
        WordsByEight(k - 1);
      }
    }
  }

  /** An alignment divides the header size or is a multiple of the minimum block. */
  lemma AlignSizes(align: nat)
    requires IsPow2(align)
    ensures align <= 32 ==> 32 % align == 0
    ensures align > 32 ==> align % 64 == 0
  {
    var k := IsPow2Exponent(align);
    Pow2Values();
    if k <= 5 {
      Pow2Add(5 - k, k);
      MultipleMod(Pow2(5 - k), align);
      Pow2Monotone(k, 5);
    } else {
      Pow2Add(k - 6, 6);
      MultipleMod(Pow2(k - 6), 64);
      Pow2Monotone(6, k);
    }
  }

  /** The first aligned address behind the header of a block on a 64-byte boundary. */
  lemma AlignedPayload(a: nat, align: U64)
    requires IsPow2(align) && a % 64 == 0 && a + HEADER_BYTES + align <= U64_SIZE
    ensures var p := AlignUp(a + HEADER_BYTES, align);
            && a + HEADER_BYTES <= p < a + HEADER_BYTES + align && p % align == 0 && p % 8 == 0
  {
    var p := AlignUp(a + HEADER_BYTES, align);
    AlignUpBounds(a + HEADER_BYTES, align);
    AlignSizes(align);
    if align <= 32 {
      ModDivides(a, 64, 32);
      ModAdd(a, 32, 32);
      ModDivides(a + 32, 32, align);
      AlignUpLeast(a + HEADER_BYTES, align, a + 32);
    } else {
      ModDivides(p, align, 64);
      ModDivides(p, 64, 8);
    }
  }

  /** Every block starts on a 64-byte boundary and ends inside the address space. */
  lemma BlockBoundary(base: nat, size: nat, t: Tree, k: nat, w: nat, o: nat)
    requires MIN_ORDER <= o && HasNode(t, k, w, o) && size == BlockBytes(k)
    requires base > 0 && base % size == 0 && base + size <= U64_SIZE
    ensures Addr(base, w) % 64 == 0 && Addr(base, w) + BlockBytes(o) <= U64_SIZE
  {
    hide Words, HasNode;
    NodeRange(t, k, w, o);
    NodeByEight(t, k, w, o);
    NodeOrder(t, k, w, o);
    WordsByEight(k);
    EightFold(Words(k));
    EightFold(w);
    ModDivides(base, size, 64);
    ModAdd(base, 8 * w, 64);
  }

  lemma EightFold(w: nat)
    requires w % 8 == 0
    ensures (8 * w) % 64 == 0
  {
    MultipleMod(w / 8, 64);
  }

  /** A payload of the requested length fits behind the header of its block. */
  lemma PayloadFits(base: nat, w: nat, o: nat, len: U64, align: U64)
    requires MIN_ORDER <= o && base > 0
    requires Addr(base, w) % 64 == 0 && Addr(base, w) + BlockBytes(o) <= U64_SIZE
    requires WellFormed(len, align) && Need(len, align) <= BlockBytes(o) && base % 8 == 0
    ensures Addr(base, w) + HEADER_BYTES + align <= U64_SIZE
    ensures var p := AlignUp(Addr(base, w) + HEADER_BYTES, align);
            && p >= base && (p - base) % 8 == 0
            && var word := (p - base) / 8;
               p == Addr(base, word) && PayloadOk(base, o, w, word, len, align) && Placed(base, w, align, word)
  {
    hide Words, AlignUp, IsPow2, PayloadOk, Placed;
    AlignedPayload(Addr(base, w), align);
    var p := AlignUp(Addr(base, w) + HEADER_BYTES, align);
    WordOf(base, p);
    PlacedFits(base, w, o, (p - base) / 8, len, align);
  }

  lemma WordOf(base: nat, p: nat)
    requires p >= base && p % 8 == 0 && base % 8 == 0
    ensures (p - base) % 8 == 0 && p == Addr(base, (p - base) / 8)
  {
  }

  lemma PlacedFits(base: nat, w: nat, o: nat, word: nat, len: nat, align: nat)
    requires MIN_ORDER <= o && align > 0 && len > 0 && Need(len, align) <= BlockBytes(o)
    requires Addr(base, word) % align == 0
    requires Addr(base, w) + HEADER_BYTES <= Addr(base, word) < Addr(base, w) + HEADER_BYTES + align
    ensures PayloadOk(base, o, w, word, len, align) && Placed(base, w, align, word)
  {
    hide Words;
  }

  /* ---- when a request must fail ---- */

  /** Every aligned range of order o meets an allocated block. */
  ghost predicate AllBlocked(t: Tree, k: nat, o: nat)
    requires MIN_ORDER <= o && Deep(t, k)
  {
    forall x: nat :: x + Words(o) <= Words(k) && x % Words(o) == 0 ==> Blocked(t, k, 0, x, x + Words(o))
  }

  /** The block at w is a free block of the least order, from o on, that has one. */
  ghost predicate FirstFit(t: Tree, k: nat, o: nat, w: nat, f: nat)
    requires Deep(t, k)
  {
    && MIN_ORDER <= o <= f && HasNode(t, k, w, f) && Sub(t, k, w, f) == Free
    && NoneBelow(t, k, o, f)
  }

  /** No free block whose order is at least o and below f. */
  ghost predicate NoneBelow(t: Tree, k: nat, o: nat, f: nat)
    requires Deep(t, k)
  {
    forall j :: o <= j < f ==> FreeAt(t, k, 0, j) == {}
  }

  /** Because the tree is coalesced, running out of free blocks of order o or more means
      that no aligned range of order o is left, and conversely. */
  lemma NoFreeIffAllBlocked(t: Tree, k: nat, o: nat)
    requires MIN_ORDER <= o <= k && Deep(t, k) && Coalesced(t)
    ensures NoneBelow(t, k, o, k + 1) <==> AllBlocked(t, k, o)
  {
    if NoneBelow(t, k, o, k + 1) {
      forall x: nat | x + Words(o) <= Words(k) && x % Words(o) == 0
        ensures Blocked(t, k, 0, x, x + Words(o))
      {
        AlignedIff(k, 0, o, x);
        NoFreeMeansBlocked(t, k, 0, o, x);
      }
    } else {
      var j :| o <= j < k + 1 && FreeAt(t, k, 0, j) != {};
      var q :| q in FreeAt(t, k, 0, j);
      FreeMeansRange(t, k, 0, o, j, q);
      AlignedIff(k, 0, o, q);
      AlignedRange(k, 0, o, q);
    }
  }

  lemma FreeNode(t: Tree, k: nat, w: nat, o: nat)
    requires MIN_ORDER <= o && Deep(t, k) && w in FreeAt(t, k, 0, o)
    ensures HasNode(t, k, w, o) && Sub(t, k, w, o) == Free
  {
    FreeAtNode(t, k, 0, o, w);
  }

  /** Holding a free block and splitting it replaces the free block by a spine. */
  lemma SplitTree(t: Tree, k: nat, w: nat, f: nat, o: nat)
    requires MIN_ORDER <= o <= f && HasNode(t, k, w, f)
    ensures HasNode(Put(t, k, w, f, HOLE), k, w, f)
    ensures Put(Put(t, k, w, f, HOLE), k, w, f, Spine(f, o, HOLE)) == Put(t, k, w, f, Spine(f, o, HOLE))
  {
    PutNode(t, k, w, f, HOLE);
  }

  lemma BaseByEight(base: nat, size: nat, k: nat)
    requires k >= MIN_ORDER && size == BlockBytes(k) && base % size == 0
    ensures base % 8 == 0
  {
    ModDivides(base, size, 8);
  }

  /** Filling the held block at the end of the spine. */
  lemma SpineFill(t: Tree, k: nat, w: nat, f: nat, o: nat, s: Tree)
    requires MIN_ORDER <= o <= f && HasNode(t, k, w, f)
    ensures HasNode(Put(t, k, w, f, Spine(f, o, HOLE)), k, w, o)
    ensures Put(Put(t, k, w, f, Spine(f, o, HOLE)), k, w, o, s) == Put(t, k, w, f, Spine(f, o, s))
  {
    SpineNode(f, o, HOLE, s);
    PutInside(t, k, w, f, Spine(f, o, HOLE), o, s);
  }

  /** Splitting the held block makes the spine one block longer. */
  lemma SpineStep(t: Tree, k: nat, w: nat, f: nat, o: nat)
    requires MIN_ORDER <= o < f && HasNode(t, k, w, f)
    ensures HasNode(Put(t, k, w, f, Spine(f, o + 1, HOLE)), k, w, o + 1)
    ensures Put(Put(t, k, w, f, Spine(f, o + 1, HOLE)), k, w, o + 1, Split(HOLE, Free))
            == Put(t, k, w, f, Spine(f, o, HOLE))
  {
    SpineFill(t, k, w, f, o + 1, Split(HOLE, Free));
    SpineCut(f, o, HOLE);
  }

  /** Writing the header before the push changes nothing. */
  lemma HeaderTwice(m: seq<nat>, w: nat, o: nat, head: nat)
    requires w + 2 < |m|
    ensures Pushed(m[w := MAGIC_FREE][w + 1 := o], w, o, head) == Pushed(m, w, o, head)
  {
  }

  lemma Unchanged(m: seq<nat>, t: Tree, k: nat)
    requires Deep(t, k)
    ensures SamePayload(t, t, k) && PayloadKept(m, m, t, k)
  {
  }

  /** Once no merge is possible the held block becomes free, and that is Release. */
  lemma ReleaseHeld(t: Tree, k: nat, w: nat, o: nat)
    requires Held(t, k, w, o) && Coalesced(t)
    requires o < k ==> HasNode(t, k, Sibling(k, w, o), o) && !Sub(t, k, Sibling(k, w, o), o).Free?
    ensures Release(t, k, w, o) == Put(t, k, w, o, Free)
  {
    hide HasNode, Sub, Put, Release, Coalesced;
    PutSub(t, k, w, o);
    FreeCoalesced(t, k, w, o, HOLE);
    ReleaseStops(t, k, w, o);
  }

  lemma SameTrans(t: Tree, t2: Tree, t3: Tree, k: nat)
    requires Deep(t, k) && Deep(t2, k) && Deep(t3, k) && SamePayload(t, t2, k) && SamePayload(t2, t3, k)
    ensures SamePayload(t, t3, k)
  {
  }

  lemma KeptTrans(m: seq<nat>, m2: seq<nat>, m3: seq<nat>, t: Tree, t2: Tree, k: nat)
    requires Deep(t, k) && Deep(t2, k) && SamePayload(t, t2, k)
    requires PayloadKept(m, m2, t, k) && PayloadKept(m2, m3, t2, k)
    ensures PayloadKept(m, m3, t, k)
  {
  }

  /* ---- what the tree says about live blocks ---- */

  /** The block at (w, o) is allocated and its payload starts at word. */
  predicate Live(t: Tree, k: nat, w: nat, o: nat, word: nat) {
    MIN_ORDER <= o && HasNode(t, k, w, o) && Sub(t, k, w, o).Used? && Sub(t, k, w, o).word == word
  }

  lemma LiveOrder(t: Tree, k: nat, w: nat, o: nat, word: nat)
    requires Live(t, k, w, o, word)
    ensures o <= k
  {
  }

  /** Header, backpointer and payload of a live block. */
  lemma LiveHeader(m: seq<nat>, heads: seq<nat>, base: nat, lists: seq<seq<nat>>, t: Tree, k: nat, used: nat,
                   w: nat, o: nat)
    requires Good(m, heads, base, lists, t, k, used)
    requires MIN_ORDER <= o && HasNode(t, k, w, o) && Sub(t, k, w, o).Used?
    ensures w + Words(o) <= Words(k)
    ensures var u := Sub(t, k, w, o);
            && m[w] == MAGIC_ALLOC && m[w + 1] == o
            && PayloadOk(base, o, w, u.word, u.len, u.align)
            && m[u.word - 1] == Addr(base, w)
  {
    RepToEx(m, base, t, k, 0, w, o);
  }

  /** Splitting a free block elsewhere leaves an allocated block as it is. */
  lemma {:induction false} PutKeepsUsed(t: Tree, k: nat, pos: int, f: nat, s: Tree, w: int, o: nat)
    requires MIN_ORDER <= f && MIN_ORDER <= o && HasNode(t, k, pos, f) && HasNode(t, k, w, o)
    requires Sub(t, k, pos, f) == Free && Sub(t, k, w, o).Used?
    ensures HasNode(Put(t, k, pos, f, s), k, w, o)
    ensures Sub(Put(t, k, pos, f, s), k, w, o) == Sub(t, k, w, o)
    decreases k
  {
    if f < k && o < k {
      if pos < Words(k - 1) && w < Words(k - 1) {
        PutKeepsUsed(t.left, k - 1, pos, f, s, w, o);
      } else if pos >= Words(k - 1) && w >= Words(k - 1) {
        PutKeepsUsed(t.right, k - 1, pos - Words(k - 1), f, s, w - Words(k - 1), o);
      }
    }
  }

  /** Releasing one allocated block leaves every other one as it is. */
  lemma {:induction false} ReleaseKeepsUsed(t: Tree, k: nat, pos: int, f: nat, w: int, o: nat)
    requires MIN_ORDER <= f && MIN_ORDER <= o && HasNode(t, k, pos, f) && HasNode(t, k, w, o)
    requires Sub(t, k, pos, f).Used? && Sub(t, k, w, o).Used? && pos != w
    ensures HasNode(Release(t, k, pos, f), k, w, o)
    ensures Sub(Release(t, k, pos, f), k, w, o) == Sub(t, k, w, o)
    decreases k
  {
    if f < k && o < k {
      var h := Words(k - 1);
      if w < h {
        HasNodeUsed(t.left, k - 1, w, o);
        if pos < h {
          ReleaseKeepsUsed(t.left, k - 1, pos, f, w, o);
          HasNodeUsed(Release(t.left, k - 1, pos, f), k - 1, w, o);
        }
      } else {
        HasNodeUsed(t.right, k - 1, w - h, o);
        if pos >= h {
          ReleaseKeepsUsed(t.right, k - 1, pos - h, f, w - h, o);
          HasNodeUsed(Release(t.right, k - 1, pos - h, f), k - 1, w - h, o);
        }
      }
    }
  }

  lemma HasNodeUsed(t: Tree, k: nat, w: int, o: nat)
    requires MIN_ORDER <= o && HasNode(t, k, w, o) && Sub(t, k, w, o).Used?
    ensures !t.Free?
  {
  }

  /** The payloads of two live blocks share no byte. */
  lemma PayloadsDisjoint(m: seq<nat>, heads: seq<nat>, base: nat, lists: seq<seq<nat>>, t: Tree, k: nat, used: nat,
                         w: nat, o: nat, w2: nat, o2: nat)
    requires Good(m, heads, base, lists, t, k, used) && w != w2
    requires MIN_ORDER <= o && HasNode(t, k, w, o) && Sub(t, k, w, o).Used?
    requires MIN_ORDER <= o2 && HasNode(t, k, w2, o2) && Sub(t, k, w2, o2).Used?
    ensures var u, v := Sub(t, k, w, o), Sub(t, k, w2, o2);
            || Addr(base, u.word) + u.len <= Addr(base, v.word)
            || Addr(base, v.word) + v.len <= Addr(base, u.word)
  {
    UsedApart(t, k, w, o, w2, o2);
    LiveHeader(m, heads, base, lists, t, k, used, w, o);
    LiveHeader(m, heads, base, lists, t, k, used, w2, o2);
  }

  /** Bytes of the free blocks. */
  function UnusedBytes(t: Tree, k: nat): nat
    requires Deep(t, k)
    decreases t
  {
    match t
    case Free => BlockBytes(k)
    case Used(_, _, _) => 0
    case Split(l, r) => UnusedBytes(l, k - 1) + UnusedBytes(r, k - 1)
  }

  /** Allocated and free blocks partition the region. */
  lemma {:induction false} BytesPartition(t: Tree, k: nat)
    requires Deep(t, k)
    ensures UsedBytes(t, k) + UnusedBytes(t, k) == BlockBytes(k)
    decreases t
  {
    if t.Split? {
      BytesPartition(t.left, k - 1);
      BytesPartition(t.right, k - 1);
    }
  }

  lemma {:induction false} NoBytesNoneUsed(t: Tree, k: nat)
    requires Deep(t, k) && UsedBytes(t, k) == 0
    ensures NoneUsed(t)
    decreases t
  {
    if t.Split? {
      NoBytesNoneUsed(t.left, k - 1);
      NoBytesNoneUsed(t.right, k - 1);
    }
  }

  lemma SomeMember(q: seq<nat>)
    ensures q != [] ==> exists x :: x in q
  {
    if q != [] {
      assert q[0] in q;
    }
  }

  lemma TwoMembers(q: seq<nat>)
    requires |q| >= 2 && forall a, b :: 0 <= a < b < |q| ==> q[a] != q[b]
    ensures exists x, y :: x in q && y in q && x != y
  {
    assert q[0] in q && q[1] in q;
  }

  lemma SingleMember(q: seq<nat>, x: nat)
    requires forall a, b :: 0 <= a < b < |q| ==> q[a] != q[b]
    requires x in q && forall y :: y in q ==> y == x
    ensures q == [x]
  {
    if |q| >= 2 {
      TwoMembers(q);
    }
  }

  /** Once every block is freed the region is a single free block of the highest order:
      its list holds that block and all others are empty. */
  lemma DrainedIsOneBlock(m: seq<nat>, heads: seq<nat>, base: nat, lists: seq<seq<nat>>, t: Tree, k: nat, used: nat)
    requires Good(m, heads, base, lists, t, k, used) && used == 0 && base > 0
    ensures t == Free && k < |lists| == |heads|
    ensures forall o :: 0 <= o < |lists| ==> lists[o] == if o == k then [0] else []
    ensures forall o :: 0 <= o < |heads| ==> heads[o] == if o == k then base else NULL
  {
    NoBytesNoneUsed(t, k);
    AllFreeIsOne(t);
    forall o | 0 <= o < |lists|
      ensures lists[o] == (if o == k then [0] else []) && heads[o] == (if o == k then base else NULL)
    {
      var q := lists[o];
      assert ListOk(m, heads[o], base, q, t, k, o);
      SomeMember(q);
      if o == k {
        SingleMember(q, 0);
      }
    }
  }

  /** Payload that is still live has been kept. */
  lemma KeptBack(m: seq<nat>, m2: seq<nat>, m3: seq<nat>, t2: Tree, t3: Tree, k: nat)
    requires Deep(t2, k) && Deep(t3, k) && SamePayload(t2, t3, k)
    requires PayloadKept(m, m2, t2, k) && PayloadKept(m2, m3, t2, k)
    ensures PayloadKept(m, m3, t3, k)
  {
  }

  lemma KeptOver(m: seq<nat>, m2: seq<nat>, m3: seq<nat>, t: Tree, k: nat)
    requires Deep(t, k) && PayloadKept(m, m2, t, k) && PayloadKept(m2, m3, t, k)
    ensures PayloadKept(m, m3, t, k)
  {
  }

  /** A write to a payload word keeps headers, lists and counters. */
  lemma PayloadWrite(m: seq<nat>, heads: seq<nat>, base: nat, lists: seq<seq<nat>>, t: Tree, k: nat, used: nat,
                     c: nat, v: nat)
    requires Good(m, heads, base, lists, t, k, used) && InPayload(t, k, 0, c)
    ensures c < |m| && Good(m[c := v], heads, base, lists, t, k, used)
  {
    hide FreeAt, ListsOk, UsedBytes, Coalesced, Words, InPayload, Rep;
    RepPayload(m, base, t, k, 0, c, v);
    var m2 := m[c := v];
    forall j, x | x in FreeAt(t, k, 0, j) && x + 2 < |m|
      ensures m[x + 2] == m2[x + 2]
    {
      FreeAtRange(t, k, 0, j, x);
      if x + 2 == c {
        PayloadNotFree(t, k, 0, c, j, x);
      }
    }
    ListsSame(m, m2, heads, base, lists, t, t, k);
  }

  /** The allocated block at the end of a spine is live, and releasing it restores the tree. */
  lemma SpineLive(t: Tree, k: nat, w: nat, f: nat, o: nat, u: Tree)
    requires MIN_ORDER <= o <= f && HasNode(t, k, w, f) && Sub(t, k, w, f) == Free && u.Used? && Coalesced(t)
    ensures Live(Put(t, k, w, f, Spine(f, o, u)), k, w, o, u.word)
    ensures HasNode(Put(t, k, w, f, Spine(f, o, u)), k, w, o)
    ensures Release(Put(t, k, w, f, Spine(f, o, u)), k, w, o) == t
  {
    hide Put, Sub, HasNode, Release, Spine;
    SpineNode(f, o, u, u);
    PutInside(t, k, w, f, Spine(f, o, u), o, u);
    ReleaseUndoesSpine(t, k, w, f, o, u);
  }
}
