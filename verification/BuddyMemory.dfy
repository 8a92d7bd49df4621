/** How the tree of blocks lies in memory: in-band headers, backpointers and free
    lists (memory/allocator.c). Memory is a sequence of 8-byte words; the order
    field and the padding beside it are one word. Addresses are base + 8 * word. */
module BuddyMemory {
  import opened Mem
  import opened BuddyTree

  const MAGIC_FREE: nat := 0x4652454546414942
  const MAGIC_ALLOC: nat := 0x414C4C4F46414942

  function Addr(base: nat, w: nat): nat { base + 8 * w }

  /** The payload lies inside its block, behind header and backpointer, and is aligned. */
  predicate PayloadOk(base: nat, k: nat, off: nat, word: nat, len: nat, align: nat)
    requires k >= MIN_ORDER
  {
    && off + HEADER_WORDS <= word
    && len > 0 && 8 * word + len <= 8 * (off + Words(k))
    && align > 0 && Addr(base, word) % align == 0
  }

  /** The headers in memory describe exactly the leaves of the tree. */
  predicate Rep(m: seq<nat>, base: nat, t: Tree, k: nat, off: nat)
    requires Deep(t, k) && off + Words(k) <= |m|
    decreases t
  {
    match t
    case Free => m[off] == MAGIC_FREE && m[off + 1] == k
    case Used(word, len, align) =>
      && m[off] == MAGIC_ALLOC && m[off + 1] == k
      && PayloadOk(base, k, off, word, len, align)
      && m[word - 1] == Addr(base, off)
    case Split(l, r) => Rep(m, base, l, k - 1, off) && Rep(m, base, r, k - 1, off + Words(k - 1))
  }

  /** The headers describe every leaf outside node (pos, o). */
  predicate RepEx(m: seq<nat>, base: nat, t: Tree, k: nat, off: nat, pos: int, o: nat)
    requires MIN_ORDER <= o && Deep(t, k) && HasNode(t, k, pos, o) && off + Words(k) <= |m|
    decreases k
  {
    if o == k then true
    else if pos < Words(k - 1) then
      && RepEx(m, base, t.left, k - 1, off, pos, o)
      && Rep(m, base, t.right, k - 1, off + Words(k - 1))
    else
      && Rep(m, base, t.left, k - 1, off)
      && RepEx(m, base, t.right, k - 1, off + Words(k - 1), pos - Words(k - 1), o)
  }

  lemma {:induction false} RepToEx(m: seq<nat>, base: nat, t: Tree, k: nat, off: nat, pos: int, o: nat)
    requires MIN_ORDER <= o && Deep(t, k) && HasNode(t, k, pos, o) && off + Words(k) <= |m|
    requires Rep(m, base, t, k, off)
    ensures RepEx(m, base, t, k, off, pos, o)
    ensures pos >= 0 && pos + Words(o) <= Words(k) && Deep(Sub(t, k, pos, o), o)
    ensures Rep(m, base, Sub(t, k, pos, o), o, off + pos)
    decreases k
  {
    NodeRange(t, k, pos, o);
    DeepNode(t, k, pos, o);
    if o < k {
      if pos < Words(k - 1) {
        NodeRange(t.left, k - 1, pos, o);
        RepToEx(m, base, t.left, k - 1, off, pos, o);
      } else {
        RepToEx(m, base, t.right, k - 1, off + Words(k - 1), pos - Words(k - 1), o);
      }
    }
  }

  /** Filling the hole: all leaves are described again. */
  lemma {:induction false} ExToRep(m: seq<nat>, base: nat, t: Tree, k: nat, off: nat, pos: int, o: nat, s: Tree)
    requires MIN_ORDER <= o && Deep(t, k) && HasNode(t, k, pos, o) && off + Words(k) <= |m|
    requires RepEx(m, base, t, k, off, pos, o)
    requires 0 <= pos && pos + Words(o) <= Words(k) && Deep(s, o) && Rep(m, base, s, o, off + pos)
    ensures Deep(Put(t, k, pos, o, s), k) && Rep(m, base, Put(t, k, pos, o, s), k, off)
    decreases k
  {
    DeepPut(t, k, pos, o, s);
    if o < k {
      if pos < Words(k - 1) {
        NodeRange(t.left, k - 1, pos, o);
        ExToRep(m, base, t.left, k - 1, off, pos, o, s);
      } else {
        ExToRep(m, base, t.right, k - 1, off + Words(k - 1), pos - Words(k - 1), o, s);
      }
    }
  }

  /** What is outside the hole does not depend on its filling. */
  lemma {:induction false} ExIgnoresHole(m: seq<nat>, base: nat, t: Tree, k: nat, off: nat, pos: int, o: nat, s: Tree)
    requires MIN_ORDER <= o && Deep(t, k) && HasNode(t, k, pos, o) && off + Words(k) <= |m| && Deep(s, o)
    requires RepEx(m, base, t, k, off, pos, o)
    ensures Deep(Put(t, k, pos, o, s), k) && HasNode(Put(t, k, pos, o, s), k, pos, o)
    ensures RepEx(m, base, Put(t, k, pos, o, s), k, off, pos, o)
    decreases k
  {
    DeepPut(t, k, pos, o, s);
    PutNode(t, k, pos, o, s);
    if o < k {
      if pos < Words(k - 1) {
        ExIgnoresHole(m, base, t.left, k - 1, off, pos, o, s);
      } else {
        ExIgnoresHole(m, base, t.right, k - 1, off + Words(k - 1), pos - Words(k - 1), o, s);
      }
    }
  }

  /** Splitting the hole: its right half is now a described free block. */
  lemma {:induction false} ExSplit(m: seq<nat>, base: nat, t: Tree, k: nat, off: nat, pos: int, o: nat, u: Tree)
    requires MIN_ORDER < o && Deep(t, k) && HasNode(t, k, pos, o) && off + Words(k) <= |m| && u.Used?
    requires RepEx(m, base, t, k, off, pos, o)
    requires 0 <= pos && pos + Words(o) <= Words(k)
    requires m[off + pos + Words(o - 1)] == MAGIC_FREE && m[off + pos + Words(o - 1) + 1] == o - 1
    ensures var t2 := Put(t, k, pos, o, Split(u, Free));
            && Deep(t2, k) && HasNode(t2, k, pos, o - 1) && Sub(t2, k, pos, o - 1) == u
            && RepEx(m, base, t2, k, off, pos, o - 1)
    decreases k
  {
    DeepPut(t, k, pos, o, Split(u, Free));
    if o < k {
      if pos < Words(k - 1) {
        NodeRange(t.left, k - 1, pos, o);
        ExSplit(m, base, t.left, k - 1, off, pos, o, u);
      } else {
        ExSplit(m, base, t.right, k - 1, off + Words(k - 1), pos - Words(k - 1), o, u);
      }
    }
  }

  /** The sibling of the hole is described, and so is everything outside the parent. */
  lemma {:induction false} ExSibling(m: seq<nat>, base: nat, t: Tree, k: nat, off: nat, pos: int, o: nat)
    requires MIN_ORDER <= o < k && Deep(t, k) && HasNode(t, k, pos, o) && off + Words(k) <= |m|
    requires RepEx(m, base, t, k, off, pos, o)
    ensures var b, p := Sibling(k, pos, o), Parent(k, pos, o);
            && 0 <= b && b + Words(o) <= Words(k) && HasNode(t, k, b, o) && HasNode(t, k, p, o + 1)
            && Deep(Sub(t, k, b, o), o)
            && Rep(m, base, Sub(t, k, b, o), o, off + b)
            && RepEx(m, base, t, k, off, p, o + 1)
    decreases k
  {
    hide Words;
    WordsHalf(k);
    SiblingNode(t, k, pos, o);
    NodeRange(t, k, Sibling(k, pos, o), o);
    DeepNode(t, k, Sibling(k, pos, o), o);
    if k == o + 1 {
    } else if pos < Words(k - 1) {
      SiblingNode(t.left, k - 1, pos, o);
      NodeRange(t.left, k - 1, Sibling(k - 1, pos, o), o);
      ExSibling(m, base, t.left, k - 1, off, pos, o);
    } else {
      SiblingNode(t.right, k - 1, pos - Words(k - 1), o);
      ExSibling(m, base, t.right, k - 1, off + Words(k - 1), pos - Words(k - 1), o);
    }
  }

  /** The header test at the start of a block: is there a whole free block of order o here? */
  lemma {:induction false} HeaderFirst(m: seq<nat>, base: nat, t: Tree, k: nat, off: nat, o: nat)
    requires Deep(t, k) && off + Words(k) <= |m| && Rep(m, base, t, k, off)
    ensures m[off] == MAGIC_FREE && m[off + 1] == o <==> off in FreeAt(t, k, off, o)
    ensures o >= k ==> (off in FreeAt(t, k, off, o) <==> t.Free? && k == o)
    decreases t
  {
    if t.Split? {
      HeaderFirst(m, base, t.left, k - 1, off, o);
      if off in FreeAt(t.right, k - 1, off + Words(k - 1), o) {
        FreeAtRange(t.right, k - 1, off + Words(k - 1), o, off);
      }
    }
  }

  /** The header test `block_is_free` is true exactly for a whole free block of that order:
      wherever a block starts and whatever order is asked for. */
  lemma {:induction false} HeaderTest(m: seq<nat>, base: nat, t: Tree, k: nat, off: nat, pos: nat, j: nat, o: nat)
    requires MIN_ORDER <= j && Deep(t, k) && HasNode(t, k, pos, j)
    requires off + Words(k) <= |m| && Rep(m, base, t, k, off)
    ensures off + pos + 1 < |m|
    ensures m[off + pos] == MAGIC_FREE && m[off + pos + 1] == o <==> off + pos in FreeAt(t, k, off, o)
    decreases t
  {
    NodeRange(t, k, pos, j);
    if j == k {
      HeaderFirst(m, base, t, k, off, o);
    } else if pos < Words(k - 1) {
      HeaderTest(m, base, t.left, k - 1, off, pos, j, o);
      if off + pos in FreeAt(t.right, k - 1, off + Words(k - 1), o) {
        FreeAtRange(t.right, k - 1, off + Words(k - 1), o, off + pos);
      }
    } else {
      HeaderTest(m, base, t.right, k - 1, off + Words(k - 1), pos - Words(k - 1), j, o);
      if off + pos in FreeAt(t.left, k - 1, off, o) {
        FreeAtRange(t.left, k - 1, off, o, off + pos);
      }
    }
  }

  /* ---- frames ---- */

  lemma {:induction false} RepFrame(m: seq<nat>, m2: seq<nat>, base: nat, t: Tree, k: nat, off: nat)
    requires Deep(t, k) && off + Words(k) <= |m| == |m2|
    requires forall c :: off <= c < off + Words(k) ==> m[c] == m2[c]
    requires Rep(m, base, t, k, off)
    ensures Rep(m2, base, t, k, off)
    decreases t
  {
    if t.Split? {
      RepFrame(m, m2, base, t.left, k - 1, off);
      RepFrame(m, m2, base, t.right, k - 1, off + Words(k - 1));
    }
  }

  /** Writes inside the hole do not touch what is outside. */
  lemma {:induction false} ExFrame(m: seq<nat>, m2: seq<nat>, base: nat, t: Tree, k: nat, off: nat, pos: int, o: nat)
    requires MIN_ORDER <= o && Deep(t, k) && HasNode(t, k, pos, o) && off + Words(k) <= |m| == |m2|
    requires forall c :: off <= c < off + Words(k) && !(off + pos <= c < off + pos + Words(o)) ==> m[c] == m2[c]
    requires RepEx(m, base, t, k, off, pos, o)
    ensures RepEx(m2, base, t, k, off, pos, o)
    decreases k
  {
    if o < k {
      NodeRange(t, k, pos, o);
      if pos < Words(k - 1) {
        NodeRange(t.left, k - 1, pos, o);
        ExFrame(m, m2, base, t.left, k - 1, off, pos, o);
        RepFrame(m, m2, base, t.right, k - 1, off + Words(k - 1));
      } else {
        RepFrame(m, m2, base, t.left, k - 1, off);
        ExFrame(m, m2, base, t.right, k - 1, off + Words(k - 1), pos - Words(k - 1), o);
      }
    }
  }

  /** The link word of a free block belongs to no header. */
  lemma {:induction false} RepLink(m: seq<nat>, base: nat, t: Tree, k: nat, off: nat, j: nat, q: nat, v: nat)
    requires Deep(t, k) && off + Words(k) <= |m| && Rep(m, base, t, k, off) && q in FreeAt(t, k, off, j)
    ensures q + 2 < |m| && Rep(m[q + 2 := v], base, t, k, off)
    decreases t
  {
    FreeAtRange(t, k, off, j, q);
    if t.Split? {
      var m2 := m[q + 2 := v];
      if q in FreeAt(t.left, k - 1, off, j) {
        FreeAtRange(t.left, k - 1, off, j, q);
        RepLink(m, base, t.left, k - 1, off, j, q, v);
        RepFrame(m, m2, base, t.right, k - 1, off + Words(k - 1));
      } else {
        FreeAtRange(t.right, k - 1, off + Words(k - 1), j, q);
        RepLink(m, base, t.right, k - 1, off + Words(k - 1), j, q, v);
        RepFrame(m, m2, base, t.left, k - 1, off);
      }
    }
  }

  lemma {:induction false} ExLink(m: seq<nat>, base: nat, t: Tree, k: nat, off: nat, pos: int, o: nat,
                                  j: nat, q: nat, v: nat)
    requires MIN_ORDER <= o && Deep(t, k) && HasNode(t, k, pos, o) && off + Words(k) <= |m|
    requires RepEx(m, base, t, k, off, pos, o) && q in FreeAt(t, k, off, j)
    ensures q + 2 < |m| && RepEx(m[q + 2 := v], base, t, k, off, pos, o)
    decreases k
  {
    hide Words;
    FreeAtRange(t, k, off, j, q);
    if o < k {
      WordsHalf(k);
      var m2 := m[q + 2 := v];
      NodeRange(t, k, pos, o);
      if pos < Words(k - 1) {
        NodeRange(t.left, k - 1, pos, o);
        if q in FreeAt(t.left, k - 1, off, j) {
          FreeAtRange(t.left, k - 1, off, j, q);
          ExLink(m, base, t.left, k - 1, off, pos, o, j, q, v);
          RepFrame(m, m2, base, t.right, k - 1, off + Words(k - 1));
        } else {
          FreeAtRange(t.right, k - 1, off + Words(k - 1), j, q);
          RepLink(m, base, t.right, k - 1, off + Words(k - 1), j, q, v);
          ExFrame(m, m2, base, t.left, k - 1, off, pos, o);
        }
      } else {
        if q in FreeAt(t.left, k - 1, off, j) {
          FreeAtRange(t.left, k - 1, off, j, q);
          RepLink(m, base, t.left, k - 1, off, j, q, v);
          ExFrame(m, m2, base, t.right, k - 1, off + Words(k - 1), pos - Words(k - 1), o);
        } else {
          FreeAtRange(t.right, k - 1, off + Words(k - 1), j, q);
          ExLink(m, base, t.right, k - 1, off + Words(k - 1), pos - Words(k - 1), o, j, q, v);
          RepFrame(m, m2, base, t.left, k - 1, off);
        }
      }
    }
  }

  /** A free block never overlaps an allocated node. */
  lemma {:induction false} FreeApart(t: Tree, k: nat, off: nat, pos: int, o: nat, j: nat, q: nat)
    requires MIN_ORDER <= o && Deep(t, k) && HasNode(t, k, pos, o) && Sub(t, k, pos, o).Used?
    requires q in FreeAt(t, k, off, j)
    ensures j >= MIN_ORDER && (q + Words(j) <= off + pos || off + pos + Words(o) <= q)
    decreases k
  {
    FreeAtRange(t, k, off, j, q);
    NodeRange(t, k, pos, o);
    if o < k {
      if pos < Words(k - 1) {
        NodeRange(t.left, k - 1, pos, o);
        if q in FreeAt(t.left, k - 1, off, j) {
          FreeApart(t.left, k - 1, off, pos, o, j, q);
        } else {
          FreeAtRange(t.right, k - 1, off + Words(k - 1), j, q);
        }
      } else {
        if q in FreeAt(t.left, k - 1, off, j) {
          FreeAtRange(t.left, k - 1, off, j, q);
        } else {
          FreeApart(t.right, k - 1, off + Words(k - 1), pos - Words(k - 1), o, j, q);
        }
      }
    }
  }

  /** Two distinct nodes that are leaves do not overlap. */
  lemma {:induction false} UsedApart(t: Tree, k: nat, pos: int, o: nat, pos2: int, o2: nat)
    requires MIN_ORDER <= o && MIN_ORDER <= o2 && HasNode(t, k, pos, o) && HasNode(t, k, pos2, o2)
    requires Sub(t, k, pos, o).Used? && Sub(t, k, pos2, o2).Used? && pos != pos2
    ensures pos + Words(o) <= pos2 || pos2 + Words(o2) <= pos
    decreases k
  {
    NodeRange(t, k, pos, o);
    NodeRange(t, k, pos2, o2);
    if o < k && o2 < k {
      var w := Words(k - 1);
      if pos < w {
        NodeRange(t.left, k - 1, pos, o);
        if pos2 < w {
          UsedApart(t.left, k - 1, pos, o, pos2, o2);
        }
      } else if pos2 < w {
        NodeRange(t.left, k - 1, pos2, o2);
      } else {
        UsedApart(t.right, k - 1, pos - w, o, pos2 - w, o2);
      }
    }
  }

  /* ---- free lists ---- */

  /** The list that starts at address head links the blocks q, in order. */
  predicate Chain(m: seq<nat>, base: nat, head: nat, q: seq<nat>)
    decreases |q|
  {
    if q == [] then head == 0
    else
      && head == Addr(base, q[0])
      && q[0] + 2 < |m|
      && Chain(m, base, m[q[0] + 2], q[1..])
  }

  lemma {:induction false} ChainFrame(m: seq<nat>, m2: seq<nat>, base: nat, head: nat, q: seq<nat>)
    requires Chain(m, base, head, q) && |m| == |m2|
    requires forall x :: x in q && x + 2 < |m| ==> m[x + 2] == m2[x + 2]
    ensures Chain(m2, base, head, q)
    decreases |q|
  {
    if q != [] {
      assert q[0] in q;
      forall x | x in q[1..] && x + 2 < |m|
        ensures m[x + 2] == m2[x + 2]
      {
        assert x in q;
      }
      ChainFrame(m, m2, base, m[q[0] + 2], q[1..]);
    }
  }

  /** Where the link to position i of the list is stored: its value is the address of q[i]. */
  lemma {:induction false} ChainAt(m: seq<nat>, base: nat, head: nat, q: seq<nat>, i: nat)
    requires Chain(m, base, head, q) && i <= |q|
    ensures forall j :: 0 <= j < |q| ==> q[j] + 2 < |m|
    ensures Chain(m, base, if i == 0 then head else m[q[i - 1] + 2], q[i..])
    decreases i, |q|
  {
    ChainInRange(m, base, head, q);
    if i > 0 {
      ChainAt(m, base, m[q[0] + 2], q[1..], i - 1);
      assert q[1..][i - 1..] == q[i..];
      assert i > 1 ==> q[1..][i - 2] == q[i - 1];
    } else {
      assert q[0..] == q;
    }
  }

  lemma {:induction false} ChainInRange(m: seq<nat>, base: nat, head: nat, q: seq<nat>)
    requires Chain(m, base, head, q)
    ensures forall j :: 0 <= j < |q| ==> q[j] + 2 < |m|
    decreases |q|
  {
    if q != [] {
      ChainInRange(m, base, m[q[0] + 2], q[1..]);
      assert forall j :: 1 <= j < |q| ==> q[j] == q[1..][j - 1];
    }
  }

  /** Redirecting the link before position i past it removes q[i]. */
  lemma {:induction false} ChainRemove(m: seq<nat>, base: nat, head: nat, q: seq<nat>, i: nat)
    requires Chain(m, base, head, q) && 0 < i < |q|
    requires forall a, b :: 0 <= a < b < |q| ==> q[a] != q[b]
    ensures forall j :: 0 <= j < |q| ==> q[j] + 2 < |m|
    ensures Chain(m[q[i - 1] + 2 := m[q[i] + 2]], base, head, q[..i] + q[i + 1..])
    decreases i
  {
    ChainInRange(m, base, head, q);
    var m2 := m[q[i - 1] + 2 := m[q[i] + 2]];
    var t := q[..i] + q[i + 1..];
    assert t[0] == q[0];
    if i == 1 {
      ChainAt(m, base, head, q, 2);
      assert t[1..] == q[2..];
      ChainFrame(m, m2, base, m[q[1] + 2], q[2..]);
    } else {
      ChainRemove(m, base, m[q[0] + 2], q[1..], i - 1);
      assert t[1..] == q[1..][..i - 1] + q[1..][i..];
    }
  }

  /** The lists hold exactly the free blocks, one list per order. */
  ghost predicate ListsOk(m: seq<nat>, heads: seq<nat>, base: nat, lists: seq<seq<nat>>, t: Tree, k: nat)
    requires Deep(t, k)
  {
    && |heads| == |lists|
    && k < |lists|
    && forall o :: 0 <= o < |lists| ==> ListOk(m, heads[o], base, lists[o], t, k, o)
  }

  ghost predicate ListOk(m: seq<nat>, head: nat, base: nat, q: seq<nat>, t: Tree, k: nat, o: nat)
    requires Deep(t, k)
  {
    && Chain(m, base, head, q)
    && (forall a, b :: 0 <= a < b < |q| ==> q[a] != q[b])
    && (forall x :: x in q <==> x in FreeAt(t, k, 0, o))
  }

  /** Words that link no free block may change. */
  lemma ListFrame(m: seq<nat>, m2: seq<nat>, head: nat, base: nat, q: seq<nat>, t: Tree, t2: Tree, k: nat, o: nat)
    requires Deep(t, k) && Deep(t2, k) && ListOk(m, head, base, q, t, k, o) && |m| == |m2|
    requires forall x :: x in FreeAt(t, k, 0, o) && x + 2 < |m| ==> m[x + 2] == m2[x + 2]
    requires forall x :: x in FreeAt(t, k, 0, o) <==> x in FreeAt(t2, k, 0, o)
    ensures ListOk(m2, head, base, q, t2, k, o)
  {
    hide FreeAt;
    ChainFrame(m, m2, base, head, q);
  }

  lemma ListPush(m: seq<nat>, m2: seq<nat>, head: nat, base: nat, q: seq<nat>, t: Tree, t2: Tree, k: nat, o: nat, w: nat)
    requires Deep(t, k) && Deep(t2, k) && ListOk(m, head, base, q, t, k, o) && |m| == |m2|
    requires forall x :: x in FreeAt(t, k, 0, o) && x + 2 < |m| ==> m[x + 2] == m2[x + 2]
    requires w + 2 < |m| && m2[w + 2] == head && w !in FreeAt(t, k, 0, o)
    requires forall x :: x in FreeAt(t2, k, 0, o) <==> x in FreeAt(t, k, 0, o) || x == w
    ensures ListOk(m2, Addr(base, w), base, [w] + q, t2, k, o)
  {
    hide FreeAt;
    ChainFrame(m, m2, base, head, q);
    assert ([w] + q)[1..] == q;
  }

  lemma ListPop(m: seq<nat>, head: nat, base: nat, q: seq<nat>, t: Tree, t2: Tree, k: nat, o: nat)
    requires Deep(t, k) && Deep(t2, k) && ListOk(m, head, base, q, t, k, o) && q != []
    requires forall x :: x in FreeAt(t2, k, 0, o) <==> x in FreeAt(t, k, 0, o) && x != q[0]
    ensures q[0] + 2 < |m| && ListOk(m, m[q[0] + 2], base, q[1..], t2, k, o)
  {
    hide FreeAt;
    assert forall x :: x in q <==> x == q[0] || x in q[1..];
  }

  /** Cutting position i out of a sequence of distinct values. */
  lemma CutDistinct(q: seq<nat>, i: nat)
    requires i < |q| && forall a, b :: 0 <= a < b < |q| ==> q[a] != q[b]
    ensures var r := q[..i] + q[i + 1..];
            && (forall a, b :: 0 <= a < b < |r| ==> r[a] != r[b])
            && (forall x :: x in r <==> x in q && x != q[i])
  {
    var r := q[..i] + q[i + 1..];
    assert forall a :: 0 <= a < |r| ==> r[a] == q[if a < i then a else a + 1];
    forall x | x in q && x != q[i]
      ensures x in r
    {
      var a :| 0 <= a < |q| && q[a] == x;
      assert r[if a < i then a else a - 1] == x;
    }
  }

  lemma ListRemove(m: seq<nat>, head: nat, base: nat, q: seq<nat>, t: Tree, t2: Tree, k: nat, o: nat, i: nat)
    requires Deep(t, k) && Deep(t2, k) && ListOk(m, head, base, q, t, k, o) && 0 < i < |q|
    requires forall x :: x in FreeAt(t2, k, 0, o) <==> x in FreeAt(t, k, 0, o) && x != q[i]
    ensures q[i - 1] + 2 < |m| && q[i] + 2 < |m|
    ensures ListOk(m[q[i - 1] + 2 := m[q[i] + 2]], head, base, q[..i] + q[i + 1..], t2, k, o)
  {
    hide FreeAt, Chain, Deep;
    ChainRemove(m, base, head, q, i);
    CutDistinct(q, i);
  }

  /* ---- payloads ---- */

  /** Word c holds payload of some allocated block. */
  predicate InPayload(t: Tree, k: nat, off: nat, c: nat)
    requires Deep(t, k)
    decreases t
  {
    match t
    case Free => false
    case Used(word, len, _) => off <= c < off + Words(k) && word <= c && 8 * c < 8 * word + len
    case Split(l, r) => InPayload(l, k - 1, off, c) || InPayload(r, k - 1, off + Words(k - 1), c)
  }

  lemma {:induction false} PayloadRange(t: Tree, k: nat, off: nat, c: nat)
    requires Deep(t, k) && InPayload(t, k, off, c)
    ensures off <= c < off + Words(k)
    decreases t
  {
    if t.Split? {
      if InPayload(t.left, k - 1, off, c) {
        PayloadRange(t.left, k - 1, off, c);
      } else {
        PayloadRange(t.right, k - 1, off + Words(k - 1), c);
      }
    }
  }

  /** No payload inside a free block. */
  lemma {:induction false} PayloadNotFree(t: Tree, k: nat, off: nat, c: nat, j: nat, q: nat)
    requires Deep(t, k) && q in FreeAt(t, k, off, j) && j >= MIN_ORDER && q <= c < q + Words(j)
    ensures !InPayload(t, k, off, c)
    decreases t
  {
    FreeAtRange(t, k, off, j, q);
    if t.Split? {
      if q in FreeAt(t.left, k - 1, off, j) {
        FreeAtRange(t.left, k - 1, off, j, q);
        PayloadNotFree(t.left, k - 1, off, c, j, q);
        if InPayload(t.right, k - 1, off + Words(k - 1), c) {
          PayloadRange(t.right, k - 1, off + Words(k - 1), c);
        }
      } else {
        FreeAtRange(t.right, k - 1, off + Words(k - 1), j, q);
        PayloadNotFree(t.right, k - 1, off + Words(k - 1), c, j, q);
        if InPayload(t.left, k - 1, off, c) {
          PayloadRange(t.left, k - 1, off, c);
        }
      }
    }
  }

  /** Replacing a node changes the payload inside it and nowhere else. */
  lemma {:induction false} PutPayload(t: Tree, k: nat, off: nat, pos: int, o: nat, s: Tree, c: nat)
    requires MIN_ORDER <= o && Deep(t, k) && HasNode(t, k, pos, o) && Deep(s, o)
    requires pos >= 0 && Deep(Put(t, k, pos, o, s), k) && Deep(Sub(t, k, pos, o), o)
    ensures off + pos <= c < off + pos + Words(o) ==>
              && (InPayload(Put(t, k, pos, o, s), k, off, c) <==> InPayload(s, o, off + pos, c))
              && (InPayload(t, k, off, c) <==> InPayload(Sub(t, k, pos, o), o, off + pos, c))
    ensures !(off + pos <= c < off + pos + Words(o)) ==>
              (InPayload(Put(t, k, pos, o, s), k, off, c) <==> InPayload(t, k, off, c))
    decreases k
  {
    NodeRange(t, k, pos, o);
    if o == k {
      PayloadOutside(t, k, off, c);
      PayloadOutside(s, k, off, c);
    } else if pos < Words(k - 1) {
      NodeRange(t.left, k - 1, pos, o);
      PutPayload(t.left, k - 1, off, pos, o, s, c);
      PayloadOutside(t.right, k - 1, off + Words(k - 1), c);
    } else {
      PutPayload(t.right, k - 1, off + Words(k - 1), pos - Words(k - 1), o, s, c);
      PayloadOutside(t.left, k - 1, off, c);
    }
  }

  lemma PayloadOutside(t: Tree, k: nat, off: nat, c: nat)
    requires Deep(t, k)
    ensures !(off <= c < off + Words(k)) ==> !InPayload(t, k, off, c)
  {
    if InPayload(t, k, off, c) {
      PayloadRange(t, k, off, c);
    }
  }

  /** Writing to a payload word changes no header. */
  lemma {:induction false} RepPayload(m: seq<nat>, base: nat, t: Tree, k: nat, off: nat, c: nat, v: nat)
    requires Deep(t, k) && off + Words(k) <= |m| && Rep(m, base, t, k, off) && InPayload(t, k, off, c)
    ensures c < |m| && Rep(m[c := v], base, t, k, off)
    decreases t
  {
    PayloadRange(t, k, off, c);
    if t.Split? {
      var m2 := m[c := v];
      if InPayload(t.left, k - 1, off, c) {
        PayloadRange(t.left, k - 1, off, c);
        RepPayload(m, base, t.left, k - 1, off, c, v);
        RepFrame(m, m2, base, t.right, k - 1, off + Words(k - 1));
      } else {
        PayloadRange(t.right, k - 1, off + Words(k - 1), c);
        RepPayload(m, base, t.right, k - 1, off + Words(k - 1), c, v);
        RepFrame(m, m2, base, t.left, k - 1, off);
      }
    }
  }
}
