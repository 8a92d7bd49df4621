/** The buddy partition of memory/allocator.c as a binary tree: a node of order k
    covers 2^k bytes, that is Words(k) machine words. Positions are word offsets
    from the left end of the node. */
module BuddyTree {
  import opened Mem

  const MIN_ORDER: nat := 6
  const HEADER_WORDS: nat := 4

  /** A free block, an allocated block with the word its payload starts at, the
      payload bytes and the requested alignment, or a block cut into two buddies. */
  datatype Tree = Free | Used(word: nat, len: nat, align: nat) | Split(left: Tree, right: Tree)

  function Words(k: nat): (w: nat)
    requires k >= MIN_ORDER
    ensures w >= 8
  {
    if k == MIN_ORDER then 8 else 2 * Words(k - 1)
  }

  lemma WordsHalf(k: nat)
    requires k > MIN_ORDER
    ensures Words(k) == 2 * Words(k - 1)
  {
  }

  lemma {:induction false} WordsBytes(k: nat)
    requires k >= MIN_ORDER
    ensures 8 * Words(k) == Pow2(k)
  {
    if k == MIN_ORDER {
      Pow2Values();
    } else {
      WordsBytes(k - 1);
    }
  }

  /** The tree has a node of order o at position pos. */
  predicate HasNode(t: Tree, k: nat, pos: int, o: nat)
    requires MIN_ORDER <= o
    decreases k
  {
    && o <= k
    && if o == k then pos == 0
       else t.Split? && if pos < Words(k - 1) then HasNode(t.left, k - 1, pos, o)
                        else HasNode(t.right, k - 1, pos - Words(k - 1), o)
  }

  function Sub(t: Tree, k: nat, pos: int, o: nat): Tree
    requires MIN_ORDER <= o && HasNode(t, k, pos, o)
    decreases k
  {
    if o == k then t
    else if pos < Words(k - 1) then Sub(t.left, k - 1, pos, o)
    else Sub(t.right, k - 1, pos - Words(k - 1), o)
  }

  /** Replace the node of order o at pos by s. */
  function Put(t: Tree, k: nat, pos: int, o: nat, s: Tree): Tree
    requires MIN_ORDER <= o && HasNode(t, k, pos, o)
    decreases k
  {
    if o == k then s
    else if pos < Words(k - 1) then t.(left := Put(t.left, k - 1, pos, o, s))
    else t.(right := Put(t.right, k - 1, pos - Words(k - 1), o, s))
  }

  lemma {:induction false} NodeRange(t: Tree, k: nat, pos: int, o: nat)
    requires MIN_ORDER <= o && HasNode(t, k, pos, o)
    ensures 0 <= pos && pos + Words(o) <= Words(k)
    decreases k
  {
    if o < k {
      if pos < Words(k - 1) {
        NodeRange(t.left, k - 1, pos, o);
      } else {
        NodeRange(t.right, k - 1, pos - Words(k - 1), o);
      }
    }
  }

  lemma {:induction false} PutNode(t: Tree, k: nat, pos: int, o: nat, s: Tree)
    requires MIN_ORDER <= o && HasNode(t, k, pos, o)
    ensures HasNode(Put(t, k, pos, o, s), k, pos, o) && Sub(Put(t, k, pos, o, s), k, pos, o) == s
    ensures forall r :: Put(Put(t, k, pos, o, s), k, pos, o, r) == Put(t, k, pos, o, r)
    decreases k
  {
    if o < k {
      if pos < Words(k - 1) {
        PutNode(t.left, k - 1, pos, o, s);
      } else {
        PutNode(t.right, k - 1, pos - Words(k - 1), o, s);
      }
    }
  }

  lemma {:induction false} PutSub(t: Tree, k: nat, pos: int, o: nat)
    requires MIN_ORDER <= o && HasNode(t, k, pos, o)
    ensures Put(t, k, pos, o, Sub(t, k, pos, o)) == t
    decreases k
  {
    if o < k {
      if pos < Words(k - 1) {
        PutSub(t.left, k - 1, pos, o);
      } else {
        PutSub(t.right, k - 1, pos - Words(k - 1), o);
      }
    }
  }

  /* ---- buddies ---- */

  /** Position of the other half of the parent of node (pos, o). */
  function Sibling(k: nat, pos: int, o: nat): int
    requires MIN_ORDER <= o < k
    decreases k
  {
    if k == o + 1 then (if pos < Words(o) then Words(o) else 0)
    else if pos < Words(k - 1) then Sibling(k - 1, pos, o)
    else Words(k - 1) + Sibling(k - 1, pos - Words(k - 1), o)
  }

  /** Position of the parent. */
  function Parent(k: nat, pos: int, o: nat): int
    requires MIN_ORDER <= o < k
  {
    if Sibling(k, pos, o) < pos then Sibling(k, pos, o) else pos
  }

  /** The sibling is a node, and parent, node and sibling fit together. */
  lemma {:induction false} SiblingNode(t: Tree, k: nat, pos: int, o: nat)
    requires MIN_ORDER <= o < k && HasNode(t, k, pos, o)
    ensures var b, p := Sibling(k, pos, o), Parent(k, pos, o);
            && 0 <= pos && 0 <= b
            && HasNode(t, k, b, o) && HasNode(t, k, p, o + 1)
            && (b == pos + Words(o) || b == pos - Words(o))
            && Sub(t, k, p, o + 1) == (if b < pos then Split(Sub(t, k, b, o), Sub(t, k, pos, o))
                                       else Split(Sub(t, k, pos, o), Sub(t, k, b, o)))
    decreases k
  {
    NodeRange(t, k, pos, o);
    if k == o + 1 {
    } else if pos < Words(k - 1) {
      SiblingNode(t.left, k - 1, pos, o);
      NodeRange(t.left, k - 1, Sibling(k - 1, pos, o), o);
    } else {
      SiblingNode(t.right, k - 1, pos - Words(k - 1), o);
    }
  }

  /** Replacing a half and then the parent is replacing the parent. */
  lemma {:induction false} PutParent(t: Tree, k: nat, pos: int, o: nat, s: Tree, r: Tree)
    requires MIN_ORDER <= o < k && HasNode(t, k, pos, o)
    ensures var p := Parent(k, pos, o);
            && HasNode(t, k, p, o + 1)
            && HasNode(Put(t, k, pos, o, s), k, p, o + 1)
            && Put(Put(t, k, pos, o, s), k, p, o + 1, r) == Put(t, k, p, o + 1, r)
    decreases k
  {
    SiblingNode(t, k, pos, o);
    if k == o + 1 {
    } else if pos < Words(k - 1) {
      PutParent(t.left, k - 1, pos, o, s, r);
      SiblingNode(t.left, k - 1, pos, o);
    } else {
      PutParent(t.right, k - 1, pos - Words(k - 1), o, s, r);
      SiblingNode(t.right, k - 1, pos - Words(k - 1), o);
    }
  }

  /** The sibling is untouched by a replacement. */
  lemma {:induction false} PutSibling(t: Tree, k: nat, pos: int, o: nat, s: Tree)
    requires MIN_ORDER <= o < k && HasNode(t, k, pos, o)
    ensures var b := Sibling(k, pos, o);
            && HasNode(t, k, b, o) && HasNode(Put(t, k, pos, o, s), k, b, o)
            && Sub(Put(t, k, pos, o, s), k, b, o) == Sub(t, k, b, o)
    decreases k
  {
    SiblingNode(t, k, pos, o);
    if k == o + 1 {
    } else if pos < Words(k - 1) {
      PutSibling(t.left, k - 1, pos, o, s);
      NodeRange(t.left, k - 1, Sibling(k - 1, pos, o), o);
    } else {
      PutSibling(t.right, k - 1, pos - Words(k - 1), o, s);
      SiblingNode(t.right, k - 1, pos - Words(k - 1), o);
    }
  }

  /** `off ^ size` for an offset that is a multiple of the size. */
  function BuddyOf(pos: nat, w: nat): int
    requires w > 0
  {
    if (pos / w) % 2 == 0 then pos + w else pos - w
  }

  lemma BuddyShift(pos: nat, w: nat, shift: nat)
    requires w > 0 && shift % (2 * w) == 0 && pos >= shift
    ensures BuddyOf(pos, w) == BuddyOf(pos - shift, w) + shift
  {
    var q := shift / (2 * w);
    assert shift == q * (2 * w);
    var a, r := (pos - shift) / w, (pos - shift) % w;
    assert pos - shift == a * w + r;
    assert pos == (a + 2 * q) * w + r by {
      assert (a + 2 * q) * w == a * w + q * (2 * w);
    }
    DivModUnique(pos, w, a + 2 * q, r);
  }

  lemma {:induction false} WordsMultiple(k: nat, o: nat)
    requires MIN_ORDER <= o < k
    ensures Words(k) % (2 * Words(o)) == 0
    decreases k
  {
    if k == o + 1 {
      DivModUnique(Words(k), 2 * Words(o), 1, 0);
    } else {
      WordsMultiple(k - 1, o);
      ModAdd(Words(k - 1), Words(k - 1), 2 * Words(o));
    }
  }

  /** The exclusive-or of offset and size finds the sibling. */
  lemma {:induction false} BuddyIsSibling(t: Tree, k: nat, pos: int, o: nat)
    requires MIN_ORDER <= o < k && HasNode(t, k, pos, o)
    ensures pos >= 0 && BuddyOf(pos, Words(o)) == Sibling(k, pos, o)
    decreases k
  {
    NodeRange(t, k, pos, o);
    var w := Words(o);
    if k == o + 1 {
      DivModUnique(0, w, 0, 0);
      DivModUnique(w, w, 1, 0);
    } else if pos < Words(k - 1) {
      BuddyIsSibling(t.left, k - 1, pos, o);
    } else {
      BuddyIsSibling(t.right, k - 1, pos - Words(k - 1), o);
      WordsMultiple(k - 1, o);
      BuddyShift(pos, w, Words(k - 1));
    }
  }

  /* ---- coalescing ---- */

  /** No two buddies are both free. */
  predicate Coalesced(t: Tree) {
    t.Split? ==> !(t.left.Free? && t.right.Free?) && Coalesced(t.left) && Coalesced(t.right)
  }

  lemma {:induction false} PutCoalesced(t: Tree, k: nat, pos: int, o: nat, s: Tree)
    requires MIN_ORDER <= o && HasNode(t, k, pos, o)
    requires Coalesced(t) && Coalesced(s) && !s.Free?
    ensures Coalesced(Put(t, k, pos, o, s))
    ensures o < k ==> !Put(t, k, pos, o, s).Free?
    decreases k
  {
    if o < k {
      if pos < Words(k - 1) {
        PutCoalesced(t.left, k - 1, pos, o, s);
      } else {
        PutCoalesced(t.right, k - 1, pos - Words(k - 1), o, s);
      }
    }
  }

  /** A tree that is coalesced with an allocated block at (pos, o) stays so when
      that block becomes free, if its buddy is not a free block. */
  lemma {:induction false} FreeCoalesced(t: Tree, k: nat, pos: int, o: nat, u: Tree)
    requires MIN_ORDER <= o && HasNode(t, k, pos, o) && u.Used?
    requires Coalesced(Put(t, k, pos, o, u))
    requires o < k ==>
               HasNode(t, k, Sibling(k, pos, o), o) && !Sub(t, k, Sibling(k, pos, o), o).Free?
    ensures Coalesced(Put(t, k, pos, o, Free))
    decreases k
  {
    if o < k {
      SiblingNode(t, k, pos, o);
      if k == o + 1 {
      } else if pos < Words(k - 1) {
        SiblingNode(t.left, k - 1, pos, o);
        NodeRange(t.left, k - 1, Sibling(k - 1, pos, o), o);
        FreeCoalesced(t.left, k - 1, pos, o, u);
      } else {
        SiblingNode(t.right, k - 1, pos - Words(k - 1), o);
        FreeCoalesced(t.right, k - 1, pos - Words(k - 1), o, u);
      }
    }
  }

  /** When the buddy is free the two merge: the hole moves to the parent. */
  lemma {:induction false} MergeCoalesced(t: Tree, k: nat, pos: int, o: nat, u: Tree)
    requires MIN_ORDER <= o < k && HasNode(t, k, pos, o) && u.Used?
    requires Coalesced(Put(t, k, pos, o, u))
    ensures HasNode(t, k, Parent(k, pos, o), o + 1)
    ensures Coalesced(Put(t, k, Parent(k, pos, o), o + 1, u))
    decreases k
  {
    SiblingNode(t, k, pos, o);
    if k == o + 1 {
    } else if pos < Words(k - 1) {
      SiblingNode(t.left, k - 1, pos, o);
      MergeCoalesced(t.left, k - 1, pos, o, u);
      PutNotFree(t.left, k - 1, Parent(k - 1, pos, o), o + 1, u);
    } else {
      var q := pos - Words(k - 1);
      SiblingNode(t.right, k - 1, q, o);
      MergeCoalesced(t.right, k - 1, q, o, u);
      PutNotFree(t.right, k - 1, Parent(k - 1, q, o), o + 1, u);
    }
  }

  lemma PutNotFree(t: Tree, k: nat, pos: int, o: nat, u: Tree)
    requires MIN_ORDER <= o && HasNode(t, k, pos, o) && u.Used?
    ensures !Put(t, k, pos, o, u).Free?
  {
  }

  /** A coalesced tree without allocated blocks is one free block. */
  predicate NoneUsed(t: Tree) {
    match t
    case Free => true
    case Used(_, _, _) => false
    case Split(l, r) => NoneUsed(l) && NoneUsed(r)
  }

  lemma {:induction false} AllFreeIsOne(t: Tree)
    requires Coalesced(t) && NoneUsed(t)
    ensures t == Free
  {
    if t.Split? {
      AllFreeIsOne(t.left);
      AllFreeIsOne(t.right);
    }
  }

  /* ---- leaves ---- */

  /** No block is smaller than the minimum order. */
  predicate Deep(t: Tree, k: nat) {
    && k >= MIN_ORDER
    && (t.Split? ==> k > MIN_ORDER && Deep(t.left, k - 1) && Deep(t.right, k - 1))
  }

  lemma {:induction false} DeepNode(t: Tree, k: nat, pos: int, o: nat)
    requires MIN_ORDER <= o && Deep(t, k) && HasNode(t, k, pos, o)
    ensures Deep(Sub(t, k, pos, o), o)
    decreases k
  {
    if o < k {
      if pos < Words(k - 1) {
        DeepNode(t.left, k - 1, pos, o);
      } else {
        DeepNode(t.right, k - 1, pos - Words(k - 1), o);
      }
    }
  }

  lemma {:induction false} DeepPut(t: Tree, k: nat, pos: int, o: nat, s: Tree)
    requires MIN_ORDER <= o && Deep(t, k) && HasNode(t, k, pos, o) && Deep(s, o)
    ensures Deep(Put(t, k, pos, o, s), k)
    decreases k
  {
    if o < k {
      if pos < Words(k - 1) {
        DeepPut(t.left, k - 1, pos, o, s);
      } else {
        DeepPut(t.right, k - 1, pos - Words(k - 1), o, s);
      }
    }
  }

  /** Positions of the free blocks of order o below a node that starts at off. */
  function FreeAt(t: Tree, k: nat, off: nat, o: nat): set<nat>
    requires Deep(t, k)
    decreases t
  {
    match t
    case Free => if k == o then {off} else {}
    case Used(_, _, _) => {}
    case Split(l, r) => FreeAt(l, k - 1, off, o) + FreeAt(r, k - 1, off + Words(k - 1), o)
  }

  lemma {:induction false} FreeAtRange(t: Tree, k: nat, off: nat, o: nat, q: nat)
    requires Deep(t, k) && q in FreeAt(t, k, off, o)
    ensures MIN_ORDER <= o <= k && off <= q && q + Words(o) <= off + Words(k)
    decreases t
  {
    if t.Split? {
      if q in FreeAt(t.left, k - 1, off, o) {
        FreeAtRange(t.left, k - 1, off, o, q);
      } else {
        FreeAtRange(t.right, k - 1, off + Words(k - 1), o, q);
      }
    }
  }

  /** The free blocks are exactly the free leaves. */
  lemma {:induction false} FreeAtNode(t: Tree, k: nat, off: nat, o: nat, q: nat)
    requires MIN_ORDER <= o && Deep(t, k)
    ensures q in FreeAt(t, k, off, o) <==> HasNode(t, k, q - off, o) && Sub(t, k, q - off, o).Free?
    decreases t
  {
    if t.Split? {
      FreeAtNode(t.left, k - 1, off, o, q);
      FreeAtNode(t.right, k - 1, off + Words(k - 1), o, q);
      if q in FreeAt(t.left, k - 1, off, o) {
        FreeAtRange(t.left, k - 1, off, o, q);
      }
      if q in FreeAt(t.right, k - 1, off + Words(k - 1), o) {
        FreeAtRange(t.right, k - 1, off + Words(k - 1), o, q);
      }
      if HasNode(t, k, q - off, o) {
        NodeRange(t, k, q - off, o);
      }
    }
  }

  /** Replacing a node changes the free blocks inside it and no others. */
  lemma {:induction false} PutFreeAt(t: Tree, k: nat, off: nat, pos: int, o: nat, s: Tree, j: nat, q: nat)
    requires MIN_ORDER <= o && Deep(t, k) && HasNode(t, k, pos, o) && Deep(s, o)
    requires pos >= 0 && Deep(Put(t, k, pos, o, s), k) && Deep(Sub(t, k, pos, o), o)
    ensures q in FreeAt(Put(t, k, pos, o, s), k, off, j) <==>
            q in FreeAt(s, o, off + pos, j)
            || (q in FreeAt(t, k, off, j) && q !in FreeAt(Sub(t, k, pos, o), o, off + pos, j))
    decreases k
  {
    if o < k {
      NodeRange(t, k, pos, o);
      var w := Words(k - 1);
      if pos < w {
        NodeRange(t.left, k - 1, pos, o);
        PutFreeAt(t.left, k - 1, off, pos, o, s, j, q);
        if q in FreeAt(t.right, k - 1, off + w, j) {
          FreeAtRange(t.right, k - 1, off + w, j, q);
        }
        if q in FreeAt(Sub(t, k, pos, o), o, off + pos, j) {
          FreeAtRange(Sub(t, k, pos, o), o, off + pos, j, q);
        }
      } else {
        PutFreeAt(t.right, k - 1, off + w, pos - w, o, s, j, q);
        if q in FreeAt(t.left, k - 1, off, j) {
          FreeAtRange(t.left, k - 1, off, j, q);
        }
        if q in FreeAt(Sub(t, k, pos, o), o, off + pos, j) {
          FreeAtRange(Sub(t, k, pos, o), o, off + pos, j, q);
        }
      }
    }
  }

  /** Bytes of a block. */
  function BlockBytes(o: nat): nat
    requires o >= MIN_ORDER
  {
    8 * Words(o)
  }

  /** Sum of the allocated block sizes. */
  function UsedBytes(t: Tree, k: nat): nat
    requires Deep(t, k)
    decreases t
  {
    match t
    case Free => 0
    case Used(_, _, _) => BlockBytes(k)
    case Split(l, r) => UsedBytes(l, k - 1) + UsedBytes(r, k - 1)
  }

  lemma {:induction false} PutUsedBytes(t: Tree, k: nat, pos: int, o: nat, s: Tree)
    requires MIN_ORDER <= o && Deep(t, k) && HasNode(t, k, pos, o) && Deep(s, o)
    requires Deep(Put(t, k, pos, o, s), k) && Deep(Sub(t, k, pos, o), o)
    ensures UsedBytes(Put(t, k, pos, o, s), k) + UsedBytes(Sub(t, k, pos, o), o)
            == UsedBytes(t, k) + UsedBytes(s, o)
    decreases k
  {
    if o < k {
      if pos < Words(k - 1) {
        PutUsedBytes(t.left, k - 1, pos, o, s);
      } else {
        PutUsedBytes(t.right, k - 1, pos - Words(k - 1), o, s);
      }
    }
  }

  /* ---- when an allocation must fail ---- */

  /** Some allocated block meets [lo, hi). */
  predicate Blocked(t: Tree, k: nat, off: nat, lo: int, hi: int)
    requires Deep(t, k)
    decreases t
  {
    match t
    case Free => false
    case Used(_, _, _) => off < hi && lo < off + Words(k)
    case Split(l, r) => Blocked(l, k - 1, off, lo, hi) || Blocked(r, k - 1, off + Words(k - 1), lo, hi)
  }

  /** An allocated block fills part of every coalesced tree that is not one free block. */
  lemma {:induction false} NotFreeBlocked(t: Tree, k: nat, off: nat, lo: int, hi: int)
    requires Deep(t, k) && Coalesced(t) && !t.Free? && lo <= off && off + Words(k) <= hi
    ensures Blocked(t, k, off, lo, hi)
    decreases t
  {
    if t.Split? {
      if !t.left.Free? {
        NotFreeBlocked(t.left, k - 1, off, lo, hi);
      } else {
        NotFreeBlocked(t.right, k - 1, off + Words(k - 1), lo, hi);
      }
    }
  }

  /** Position x lies on a boundary of order o below a node at off. */
  predicate Aligned(k: nat, off: nat, o: nat, x: nat)
    requires MIN_ORDER <= o
    decreases k
  {
    && o <= k
    && if o == k then x == off
       else if x < off + Words(k - 1) then Aligned(k - 1, off, o, x)
       else Aligned(k - 1, off + Words(k - 1), o, x)
  }

  lemma {:induction false} AlignedRange(k: nat, off: nat, o: nat, x: nat)
    requires MIN_ORDER <= o && Aligned(k, off, o, x)
    ensures off <= x && x + Words(o) <= off + Words(k)
    decreases k
  {
    if o < k {
      if x < off + Words(k - 1) {
        AlignedRange(k - 1, off, o, x);
      } else {
        AlignedRange(k - 1, off + Words(k - 1), o, x);
      }
    }
  }

  lemma HalfMultiple(off: nat, w: nat)
    requires w > 0 && off % (2 * w) == 0
    ensures off % w == 0 && (off + w) % w == 0
  {
    var q := off / (2 * w);
    assert off == q * (2 * w);
    assert q * (2 * w) == (2 * q) * w;
    DivModUnique(off, w, 2 * q, 0);
    DivModUnique(w, w, 1, 0);
    ModAdd(off, w, w);
  }

  /** Aligned means divisible. */
  lemma {:induction false} AlignedIff(k: nat, off: nat, o: nat, x: nat)
    requires MIN_ORDER <= o <= k && off % Words(k) == 0
    ensures Aligned(k, off, o, x) <==> off <= x < off + Words(k) && x % Words(o) == 0
    decreases k
  {
    if o == k {
      if off <= x < off + Words(k) && x % Words(o) == 0 {
        MultiplesApart(off, x, Words(o));
      }
    } else {
      HalfMultiple(off, Words(k - 1));
      AlignedIff(k - 1, off, o, x);
      AlignedIff(k - 1, off + Words(k - 1), o, x);
    }
  }

  /** No free block of order o or more. */
  predicate NoFreeFrom(t: Tree, k: nat, off: nat, o: nat)
    requires Deep(t, k)
  {
    forall j :: o <= j <= k ==> FreeAt(t, k, off, j) == {}
  }

  lemma NoFreeSplit(t: Tree, k: nat, off: nat, o: nat)
    requires Deep(t, k) && t.Split? && NoFreeFrom(t, k, off, o)
    ensures NoFreeFrom(t.left, k - 1, off, o) && NoFreeFrom(t.right, k - 1, off + Words(k - 1), o)
  {
    var l, r, h, m := t.left, t.right, k - 1, off + Words(k - 1);
    forall j | o <= j <= h
      ensures FreeAt(l, h, off, j) == {} && FreeAt(r, h, m, j) == {}
    {
      assert FreeAt(t, k, off, j) == {};
    }
  }

  /** In a coalesced tree without a free block of order o or more, every aligned
      range of that order meets an allocated block. */
  lemma {:induction false} NoFreeMeansBlocked(t: Tree, k: nat, off: nat, o: nat, x: nat)
    requires MIN_ORDER <= o && Deep(t, k) && Coalesced(t) && NoFreeFrom(t, k, off, o) && Aligned(k, off, o, x)
    ensures Blocked(t, k, off, x, x + Words(o))
    decreases k
  {
    AlignedRange(k, off, o, x);
    assert FreeAt(t, k, off, k) == {};
    if o == k {
      NotFreeBlocked(t, k, off, x, x + Words(o));
    } else if t.Split? {
      NoFreeSplit(t, k, off, o);
      if x < off + Words(k - 1) {
        NoFreeMeansBlocked(t.left, k - 1, off, o, x);
      } else {
        NoFreeMeansBlocked(t.right, k - 1, off + Words(k - 1), o, x);
      }
    }
  }

  /** Conversely, a free block of order o or more contains an aligned range that
      meets no allocated block. */
  lemma {:induction false} FreeMeansRange(t: Tree, k: nat, off: nat, o: nat, j: nat, q: nat)
    requires MIN_ORDER <= o <= j && Deep(t, k) && q in FreeAt(t, k, off, j)
    ensures Aligned(k, off, o, q) && !Blocked(t, k, off, q, q + Words(o))
    decreases k
  {
    FreeAtRange(t, k, off, j, q);
    WordsMonotone(o, j);
    if t.Free? {
      AlignedLeft(k, off, o);
    } else if q in FreeAt(t.left, k - 1, off, j) {
      FreeAtRange(t.left, k - 1, off, j, q);
      FreeMeansRange(t.left, k - 1, off, o, j, q);
      BlockedOutside(t.right, k - 1, off + Words(k - 1), q, q + Words(o));
    } else {
      FreeAtRange(t.right, k - 1, off + Words(k - 1), j, q);
      FreeMeansRange(t.right, k - 1, off + Words(k - 1), o, j, q);
      BlockedOutside(t.left, k - 1, off, q, q + Words(o));
    }
  }

  lemma {:induction false} WordsMonotone(o: nat, j: nat)
    requires MIN_ORDER <= o <= j
    ensures Words(o) <= Words(j)
    decreases j
  {
    if o < j {
      WordsMonotone(o, j - 1);
    }
  }

  lemma {:induction false} AlignedLeft(k: nat, off: nat, o: nat)
    requires MIN_ORDER <= o <= k
    ensures Aligned(k, off, o, off)
    decreases k
  {
    if o < k {
      AlignedLeft(k - 1, off, o);
    }
  }

  lemma {:induction false} BlockedOutside(t: Tree, k: nat, off: nat, lo: int, hi: int)
    requires Deep(t, k) && (hi <= off || off + Words(k) <= lo)
    ensures !Blocked(t, k, off, lo, hi)
    decreases t
  {
    if t.Split? {
      BlockedOutside(t.left, k - 1, off, lo, hi);
      BlockedOutside(t.right, k - 1, off + Words(k - 1), lo, hi);
    }
  }

  /* ---- allocation and release as functions ---- */

  /** What splitting a free block of order f down to order o leaves: the left spine. */
  function Spine(f: nat, o: nat, leaf: Tree): Tree
    requires o <= f
    decreases f
  {
    if f == o then leaf else Split(Spine(f - 1, o, leaf), Free)
  }

  lemma {:induction false} SpineNode(f: nat, o: nat, leaf: Tree, s: Tree)
    requires MIN_ORDER <= o <= f
    ensures HasNode(Spine(f, o, leaf), f, 0, o) && Put(Spine(f, o, leaf), f, 0, o, s) == Spine(f, o, s)
    ensures Sub(Spine(f, o, leaf), f, 0, o) == leaf
    decreases f
  {
    if o < f {
      SpineNode(f - 1, o, leaf, s);
    }
  }

  /** Cutting one block more off the spine. */
  lemma {:induction false} SpineCut(f: nat, o: nat, leaf: Tree)
    requires o < f
    ensures Spine(f, o, leaf) == Spine(f, o + 1, Split(leaf, Free))
    decreases f
  {
    if o + 1 < f {
      SpineCut(f - 1, o, leaf);
    }
  }

  /** A node inside a replaced node. */
  lemma {:induction false} PutInside(t: Tree, k: nat, pos: int, f: nat, s: Tree, o: nat, r: Tree)
    requires MIN_ORDER <= o <= f && HasNode(t, k, pos, f) && HasNode(s, f, 0, o)
    ensures HasNode(Put(t, k, pos, f, s), k, pos, o)
    ensures Put(Put(t, k, pos, f, s), k, pos, o, r) == Put(t, k, pos, f, Put(s, f, 0, o, r))
    ensures Sub(Put(t, k, pos, f, s), k, pos, o) == Sub(s, f, 0, o)
    decreases k
  {
    NodeRange(t, k, pos, f);
    if f < k {
      if pos < Words(k - 1) {
        PutInside(t.left, k - 1, pos, f, s, o, r);
      } else {
        PutInside(t.right, k - 1, pos - Words(k - 1), f, s, o, r);
      }
    }
  }

  /** Two free buddies make one free block. */
  function Join(l: Tree, r: Tree): Tree {
    if l.Free? && r.Free? then Free else Split(l, r)
  }

  /** Block (pos, o) becomes free, and buddies merge all the way up. */
  function Release(t: Tree, k: nat, pos: int, o: nat): Tree
    requires MIN_ORDER <= o && HasNode(t, k, pos, o)
    decreases k
  {
    if o == k then Free
    else if pos < Words(k - 1) then Join(Release(t.left, k - 1, pos, o), t.right)
    else Join(t.left, Release(t.right, k - 1, pos - Words(k - 1), o))
  }

  /** Merging with a free sibling first changes nothing. */
  lemma {:induction false} ReleaseMerge(t: Tree, k: nat, pos: int, o: nat, u: Tree)
    requires MIN_ORDER <= o < k && HasNode(t, k, pos, o)
    requires HasNode(t, k, Sibling(k, pos, o), o) && Sub(t, k, Sibling(k, pos, o), o) == Free
    ensures var p := Parent(k, pos, o);
            && HasNode(t, k, p, o + 1) && HasNode(Put(t, k, p, o + 1, u), k, p, o + 1)
            && Release(t, k, pos, o) == Release(Put(t, k, p, o + 1, u), k, p, o + 1)
    decreases k
  {
    SiblingNode(t, k, pos, o);
    if k == o + 1 {
    } else if pos < Words(k - 1) {
      SiblingNode(t.left, k - 1, pos, o);
      NodeRange(t.left, k - 1, Sibling(k - 1, pos, o), o);
      ReleaseMerge(t.left, k - 1, pos, o, u);
    } else {
      SiblingNode(t.right, k - 1, pos - Words(k - 1), o);
      ReleaseMerge(t.right, k - 1, pos - Words(k - 1), o, u);
    }
  }

  /** Without a free sibling nothing merges. */
  lemma {:induction false} ReleaseStops(t: Tree, k: nat, pos: int, o: nat)
    requires MIN_ORDER <= o && HasNode(t, k, pos, o) && Coalesced(Put(t, k, pos, o, Free))
    ensures Release(t, k, pos, o) == Put(t, k, pos, o, Free)
    decreases k
  {
    if o < k {
      if pos < Words(k - 1) {
        ReleaseStops(t.left, k - 1, pos, o);
      } else {
        ReleaseStops(t.right, k - 1, pos - Words(k - 1), o);
      }
    }
  }

  /** Release does not look at the block it frees. */
  lemma {:induction false} ReleaseIgnores(t: Tree, k: nat, pos: int, o: nat, u: Tree)
    requires MIN_ORDER <= o && HasNode(t, k, pos, o)
    ensures HasNode(Put(t, k, pos, o, u), k, pos, o)
    ensures Release(Put(t, k, pos, o, u), k, pos, o) == Release(t, k, pos, o)
    decreases k
  {
    if o < k {
      if pos < Words(k - 1) {
        ReleaseIgnores(t.left, k - 1, pos, o, u);
      } else {
        ReleaseIgnores(t.right, k - 1, pos - Words(k - 1), o, u);
      }
    }
  }

  /** Releasing right after splitting restores a coalesced tree: release undoes allocation. */
  lemma {:induction false} ReleaseUndoesSpine(t: Tree, k: nat, pos: int, f: nat, o: nat, leaf: Tree)
    requires MIN_ORDER <= o <= f && HasNode(t, k, pos, f) && Sub(t, k, pos, f) == Free && Coalesced(t)
    ensures HasNode(Put(t, k, pos, f, Spine(f, o, leaf)), k, pos, o)
    ensures Release(Put(t, k, pos, f, Spine(f, o, leaf)), k, pos, o) == t
    decreases k
  {
    SpineNode(f, o, leaf, leaf);
    PutInside(t, k, pos, f, Spine(f, o, leaf), o, leaf);
    NodeRange(t, k, pos, f);
    if f == k {
      ReleaseSpine(f, o, leaf);
    } else if pos < Words(k - 1) {
      ReleaseUndoesSpine(t.left, k - 1, pos, f, o, leaf);
    } else {
      ReleaseUndoesSpine(t.right, k - 1, pos - Words(k - 1), f, o, leaf);
    }
  }

  lemma {:induction false} ReleaseSpine(f: nat, o: nat, leaf: Tree)
    requires MIN_ORDER <= o <= f
    ensures HasNode(Spine(f, o, leaf), f, 0, o) && Release(Spine(f, o, leaf), f, 0, o) == Free
    decreases f
  {
    SpineNode(f, o, leaf, leaf);
    if o < f {
      ReleaseSpine(f - 1, o, leaf);
    }
  }
}
