/** The steps of allocation and release on the tree of blocks: taking a block,
    splitting, merging and filling the block an operation holds. */
module BuddySteps {
  import opened Mem
  import opened BuddyTree
  import opened BuddyMemory

  /** Stands for the block an operation currently holds. */
  const HOLE: Tree := Used(0, 0, 0)

  /** Node (w, o) is the held block. */
  predicate Held(t: Tree, k: nat, w: nat, o: nat) {
    MIN_ORDER <= o && Deep(t, k) && HasNode(t, k, w, o) && Sub(t, k, w, o) == HOLE
  }

  /** Free blocks and payload words are those of t, except that block (w, o) became free. */
  ghost predicate Gained(t: Tree, t2: Tree, k: nat, w: nat, o: nat)
    requires Deep(t, k) && Deep(t2, k)
  {
    && (forall j, q :: q in FreeAt(t2, k, 0, j) <==> q in FreeAt(t, k, 0, j) || (j == o && q == w))
    && w !in FreeAt(t, k, 0, o)
    && SamePayload(t, t2, k)
  }

  ghost predicate SameFree(t: Tree, t2: Tree, k: nat)
    requires Deep(t, k) && Deep(t2, k)
  {
    forall j, q :: q in FreeAt(t2, k, 0, j) <==> q in FreeAt(t, k, 0, j)
  }

  ghost predicate SamePayload(t: Tree, t2: Tree, k: nat)
    requires Deep(t, k) && Deep(t2, k)
  {
    forall c :: InPayload(t2, k, 0, c) <==> InPayload(t, k, 0, c)
  }

  /** Replacing a node by one with the same free blocks. */
  lemma PutSameFree(t: Tree, k: nat, w: nat, o: nat, s: Tree)
    requires MIN_ORDER <= o && Deep(t, k) && HasNode(t, k, w, o) && Deep(s, o)
    requires Sub(t, k, w, o).Used? && s.Used?
    ensures Deep(Put(t, k, w, o, s), k) && SameFree(t, Put(t, k, w, o, s), k)
    ensures UsedBytes(Put(t, k, w, o, s), k) == UsedBytes(t, k)
    ensures w + Words(o) <= Words(k)
  {
    DeepPut(t, k, w, o, s);
    DeepNode(t, k, w, o);
    NodeRange(t, k, w, o);
    PutUsedBytes(t, k, w, o, s);
    forall j, q
      ensures q in FreeAt(Put(t, k, w, o, s), k, 0, j) <==> q in FreeAt(t, k, 0, j)
    {
      PutFreeAt(t, k, 0, w, o, s, j, q);
    }
  }

  /** Node (w, o) goes from free to held, or from held to free. */
  lemma PutToggle(t: Tree, k: nat, w: nat, o: nat, s: Tree)
    requires MIN_ORDER <= o && Deep(t, k) && HasNode(t, k, w, o)
    requires (Sub(t, k, w, o) == HOLE && s == Free) || (Sub(t, k, w, o) == Free && s == HOLE)
    ensures Deep(Put(t, k, w, o, s), k)
    ensures if s == Free then Gained(t, Put(t, k, w, o, s), k, w, o) else Gained(Put(t, k, w, o, s), t, k, w, o)
    ensures UsedBytes(t, k) + (if s == Free then 0 else BlockBytes(o))
            == UsedBytes(Put(t, k, w, o, s), k) + (if s == Free then BlockBytes(o) else 0)
    ensures w + Words(o) <= Words(k)
  {
    var t2 := Put(t, k, w, o, s);
    DeepPut(t, k, w, o, s);
    DeepNode(t, k, w, o);
    NodeRange(t, k, w, o);
    PutUsedBytes(t, k, w, o, s);
    PutNode(t, k, w, o, s);
    FreeAtNode(t, k, 0, o, w);
    FreeAtNode(t2, k, 0, o, w);
    forall j, q
      ensures q in FreeAt(t2, k, 0, j) <==>
              (q in FreeAt(t, k, 0, j) && !(s == HOLE && j == o && q == w)) || (s == Free && j == o && q == w)
    {
      PutFreeAt(t, k, 0, w, o, s, j, q);
    }
    forall c
      ensures InPayload(t2, k, 0, c) <==> InPayload(t, k, 0, c)
    {
      PutPayload(t, k, 0, w, o, s, c);
    }
  }

  /** Taking a free block. */
  lemma TakeFree(t: Tree, k: nat, w: nat, o: nat)
    requires MIN_ORDER <= o && Deep(t, k) && Coalesced(t) && w in FreeAt(t, k, 0, o)
    ensures HasNode(t, k, w, o) && Sub(t, k, w, o) == Free
    ensures var t2 := Put(t, k, w, o, HOLE);
            && Held(t2, k, w, o) && Coalesced(t2) && Gained(t2, t, k, w, o)
            && UsedBytes(t2, k) == UsedBytes(t, k) + BlockBytes(o)
            && w + Words(o) <= Words(k)
  {
    FreeAtNode(t, k, 0, o, w);
    PutToggle(t, k, w, o, HOLE);
    PutNode(t, k, w, o, HOLE);
    PutCoalesced(t, k, w, o, HOLE);
  }

  /** Splitting the held block: its right half becomes free. */
  lemma SplitHeld(t: Tree, k: nat, w: nat, o: nat)
    requires MIN_ORDER < o && Held(t, k, w, o) && Coalesced(t)
    ensures var t2 := Put(t, k, w, o, Split(HOLE, Free));
            && Held(t2, k, w, o - 1) && Coalesced(t2) && Gained(t, t2, k, w + Words(o - 1), o - 1)
            && UsedBytes(t2, k) + BlockBytes(o) == UsedBytes(t, k) + BlockBytes(o - 1)
            && w + Words(o) <= Words(k)
  {
    var s := Split(HOLE, Free);
    var t2 := Put(t, k, w, o, s);
    DeepPut(t, k, w, o, s);
    NodeRange(t, k, w, o);
    PutUsedBytes(t, k, w, o, s);
    PutCoalesced(t, k, w, o, s);
    SubOfPut(t, k, w, o, s);
    forall j, q
      ensures q in FreeAt(t2, k, 0, j) <==> q in FreeAt(t, k, 0, j) || (j == o - 1 && q == w + Words(o - 1))
    {
      PutFreeAt(t, k, 0, w, o, s, j, q);
    }
    if w + Words(o - 1) in FreeAt(t, k, 0, o - 1) {
      FreeApart(t, k, 0, w, o, o - 1, w + Words(o - 1));
    }
    forall c
      ensures InPayload(t2, k, 0, c) <==> InPayload(t, k, 0, c)
    {
      PutPayload(t, k, 0, w, o, s, c);
    }
  }

  lemma {:induction false} SubOfPut(t: Tree, k: nat, pos: int, o: nat, s: Tree)
    requires MIN_ORDER < o && HasNode(t, k, pos, o) && s.Split?
    ensures HasNode(Put(t, k, pos, o, s), k, pos, o - 1)
    ensures Sub(Put(t, k, pos, o, s), k, pos, o - 1) == s.left
    ensures forall r :: Put(Put(t, k, pos, o, s), k, pos, o - 1, r) == Put(t, k, pos, o, s.(left := r))
    decreases k
  {
    NodeRange(t, k, pos, o);
    if o < k {
      if pos < Words(k - 1) {
        SubOfPut(t.left, k - 1, pos, o, s);
      } else {
        SubOfPut(t.right, k - 1, pos - Words(k - 1), o, s);
      }
    }
  }

  /** Merging the held block with its free sibling: the parent is held. */
  lemma MergeHeld(t: Tree, k: nat, w: nat, o: nat)
    requires o < k && Held(t, k, w, o) && Coalesced(t)
    requires HasNode(t, k, Sibling(k, w, o), o) && Sub(t, k, Sibling(k, w, o), o) == Free
    ensures var b, p := Sibling(k, w, o), Parent(k, w, o);
            && 0 <= b && 0 <= p && HasNode(t, k, p, o + 1)
            && var t2 := Put(t, k, p, o + 1, HOLE);
               && Held(t2, k, p, o + 1) && Coalesced(t2) && Gained(t2, t, k, b, o)
               && UsedBytes(t2, k) == UsedBytes(t, k) + BlockBytes(o)
               && p + Words(o + 1) <= Words(k)
  {
    SiblingNode(t, k, w, o);
    var b, p := Sibling(k, w, o), Parent(k, w, o);
    var t2 := Put(t, k, p, o + 1, HOLE);
    PutSub(t, k, w, o);
    MergeCoalesced(t, k, w, o, HOLE);
    NodeRange(t, k, p, o + 1);
    DeepNode(t, k, p, o + 1);
    DeepPut(t, k, p, o + 1, HOLE);
    PutNode(t, k, p, o + 1, HOLE);
    PutUsedBytes(t, k, p, o + 1, HOLE);
    FreeAtNode(t, k, 0, o, b);
    forall j, q
      ensures q in FreeAt(t2, k, 0, j) <==> q in FreeAt(t, k, 0, j) && !(j == o && q == b)
    {
      PutFreeAt(t, k, 0, p, o + 1, HOLE, j, q);
    }
    forall c
      ensures InPayload(t2, k, 0, c) <==> InPayload(t, k, 0, c)
    {
      PutPayload(t, k, 0, p, o + 1, HOLE, c);
    }
  }

  /* ---- the lists follow the tree ---- */

  /** Words that no free block uses as a link: those of the held block. */
  lemma LinksApart(t: Tree, k: nat, h: nat, ho: nat, j: nat, x: nat)
    requires Held(t, k, h, ho) && x in FreeAt(t, k, 0, j)
    ensures !(h <= x + 2 < h + Words(ho))
  {
    FreeApart(t, k, 0, h, ho, j, x);
  }

  /** Pushing block (w, o), which lies inside the held block (h, ho) of t. */
  lemma ListsPush(m: seq<nat>, m2: seq<nat>, heads: seq<nat>, base: nat, lists: seq<seq<nat>>,
                  t: Tree, t2: Tree, k: nat, h: nat, ho: nat, w: nat, o: nat)
    requires Deep(t, k) && Held(t, k, h, ho) && Deep(t2, k) && Gained(t, t2, k, w, o) && o <= k
    requires ListsOk(m, heads, base, lists, t, k) && |m| == |m2| && w + 2 < |m|
    requires h <= w && w + 3 <= h + Words(ho)
    requires forall c :: 0 <= c < |m| && m2[c] != m[c] ==> w <= c < w + 3
    requires m2[w + 2] == heads[o]
    ensures ListsOk(m2, heads[o := Addr(base, w)], base, lists[o := [w] + lists[o]], t2, k)
  {
    hide FreeAt, Deep, Held, ListOk, InPayload, Words;
    var heads2, lists2 := heads[o := Addr(base, w)], lists[o := [w] + lists[o]];
    forall j | 0 <= j < |lists2|
      ensures ListOk(m2, heads2[j], base, lists2[j], t2, k, j)
    {
      forall x | x in FreeAt(t, k, 0, j) && x + 2 < |m|
        ensures m[x + 2] == m2[x + 2]
      {
        LinksApart(t, k, h, ho, j, x);
      }
      if j == o {
        ListPush(m, m2, heads[o], base, lists[o], t, t2, k, o, w);
      } else {
        ListFrame(m, m2, heads[j], base, lists[j], t, t2, k, j);
      }
    }
  }

  /** Popping the first block of list o. */
  lemma ListsPop(m: seq<nat>, heads: seq<nat>, base: nat, lists: seq<seq<nat>>, t: Tree, t2: Tree, k: nat, o: nat)
    requires Deep(t, k) && Deep(t2, k) && ListsOk(m, heads, base, lists, t, k) && o <= k && lists[o] != []
    requires Gained(t2, t, k, lists[o][0], o)
    ensures lists[o][0] + 2 < |m|
    ensures ListsOk(m, heads[o := m[lists[o][0] + 2]], base, lists[o := lists[o][1..]], t2, k)
  {
    hide FreeAt, Deep, ListOk, InPayload, Words;
    ListPop(m, heads[o], base, lists[o], t, t2, k, o);
    var heads2, lists2 := heads[o := m[lists[o][0] + 2]], lists[o := lists[o][1..]];
    forall j | 0 <= j < |lists2|
      ensures ListOk(m, heads2[j], base, lists2[j], t2, k, j)
    {
      if j != o {
        ListFrame(m, m, heads[j], base, lists[j], t, t2, k, j);
      }
    }
  }

  /** Unlinking position i > 0 of list o. */
  lemma ListsRemove(m: seq<nat>, heads: seq<nat>, base: nat, lists: seq<seq<nat>>, t: Tree, t2: Tree, k: nat,
                    o: nat, i: nat)
    requires Deep(t, k) && Deep(t2, k) && ListsOk(m, heads, base, lists, t, k) && o <= k && 0 < i < |lists[o]|
    requires Gained(t2, t, k, lists[o][i], o)
    ensures lists[o][i] + 2 < |m| && lists[o][i - 1] + 2 < |m|
    ensures ListsOk(m[lists[o][i - 1] + 2 := m[lists[o][i] + 2]], heads, base,
                    lists[o := lists[o][..i] + lists[o][i + 1..]], t2, k)
  {
    hide FreeAt, Deep, ListOk, InPayload, Words;
    var q := lists[o];
    ListRemove(m, heads[o], base, q, t, t2, k, o, i);
    var m2 := m[q[i - 1] + 2 := m[q[i] + 2]];
    forall j | 0 <= j < |lists|
      ensures ListOk(m2, heads[j], base, lists[o := q[..i] + q[i + 1..]][j], t2, k, j)
    {
      if j != o {
        forall x | x in FreeAt(t, k, 0, j)
          ensures x != q[i - 1]
        {
          ListMember(m, heads[o], base, q, t, k, o, i - 1);
          if x == q[i - 1] {
            OneOrder(t, k, 0, o, j, x);
          }
        }
        ListFrame(m, m2, heads[j], base, lists[j], t, t2, k, j);
      }
    }
  }

  lemma ListMember(m: seq<nat>, head: nat, base: nat, q: seq<nat>, t: Tree, k: nat, o: nat, i: nat)
    requires Deep(t, k) && ListOk(m, head, base, q, t, k, o) && i < |q|
    ensures q[i] in FreeAt(t, k, 0, o)
  {
    assert q[i] in q;
  }

  /** A position starts a free block of at most one order. */
  lemma {:induction false} OneOrder(t: Tree, k: nat, off: nat, o: nat, j: nat, q: nat)
    requires Deep(t, k) && q in FreeAt(t, k, off, o) && q in FreeAt(t, k, off, j)
    ensures o == j
    decreases t
  {
    FreeAtRange(t, k, off, o, q);
    FreeAtRange(t, k, off, j, q);
    if t.Split? {
      var m := off + Words(k - 1);
      if q in FreeAt(t.left, k - 1, off, o) {
        FreeAtRange(t.left, k - 1, off, o, q);
        if q in FreeAt(t.right, k - 1, m, j) {
          FreeAtRange(t.right, k - 1, m, j, q);
        }
        OneOrder(t.left, k - 1, off, o, j, q);
      } else {
        FreeAtRange(t.right, k - 1, m, o, q);
        if q in FreeAt(t.left, k - 1, off, j) {
          FreeAtRange(t.left, k - 1, off, j, q);
        }
        OneOrder(t.right, k - 1, m, o, j, q);
      }
    }
  }

  /** Free blocks unchanged, link words unchanged: the lists still hold. */
  lemma ListsSame(m: seq<nat>, m2: seq<nat>, heads: seq<nat>, base: nat, lists: seq<seq<nat>>,
                  t: Tree, t2: Tree, k: nat)
    requires Deep(t, k) && Deep(t2, k) && SameFree(t, t2, k) && ListsOk(m, heads, base, lists, t, k) && |m| == |m2|
    requires forall j, x :: x in FreeAt(t, k, 0, j) && x + 2 < |m| ==> m[x + 2] == m2[x + 2]
    ensures ListsOk(m2, heads, base, lists, t2, k)
  {
    hide FreeAt, Deep, ListOk, InPayload, Words;
    forall j | 0 <= j < |lists|
      ensures ListOk(m2, heads[j], base, lists[j], t2, k, j)
    {
      ListFrame(m, m2, heads[j], base, lists[j], t, t2, k, j);
    }
  }

  /* ---- memory, lists and tree together ---- */

  /** Headers, lists and the byte counter describe the tree, in which no two buddies are free. */
  ghost predicate Good(m: seq<nat>, heads: seq<nat>, base: nat, lists: seq<seq<nat>>, t: Tree, k: nat, used: nat) {
    && Deep(t, k) && |m| == Words(k)
    && Rep(m, base, t, k, 0)
    && ListsOk(m, heads, base, lists, t, k)
    && Coalesced(t)
    && used == UsedBytes(t, k)
  }

  /** The same while an operation holds block (w, o), which is on no list and not counted. */
  ghost predicate Carrying(m: seq<nat>, heads: seq<nat>, base: nat, lists: seq<seq<nat>>, t: Tree, k: nat,
                           used: nat, w: nat, o: nat) {
    && MIN_ORDER <= o <= k && Deep(t, k) && Held(t, k, w, o) && |m| == Words(k) && w + Words(o) <= Words(k)
    && RepEx(m, base, t, k, 0, w, o)
    && ListsOk(m, heads, base, lists, t, k)
    && Coalesced(t)
    && used + BlockBytes(o) == UsedBytes(t, k)
  }

  /** Payload words keep their contents. */
  ghost predicate PayloadKept(m: seq<nat>, m2: seq<nat>, t: Tree, k: nat)
    requires Deep(t, k)
  {
    |m| == |m2| && forall c :: 0 <= c < |m| && InPayload(t, k, 0, c) ==> m[c] == m2[c]
  }

  /** No payload inside the held block. */
  lemma HeldNoPayload(t: Tree, k: nat, w: nat, o: nat, c: nat)
    requires Held(t, k, w, o) && w <= c < w + Words(o)
    ensures !InPayload(t, k, 0, c)
  {
    PutSub(t, k, w, o);
    PutPayload(t, k, 0, w, o, HOLE, c);
  }

  lemma HeldKept(m: seq<nat>, m2: seq<nat>, t: Tree, k: nat, w: nat, o: nat)
    requires Deep(t, k) && Held(t, k, w, o) && |m| == |m2|
    requires forall c :: 0 <= c < |m| && m[c] != m2[c] ==> w <= c < w + Words(o)
    ensures PayloadKept(m, m2, t, k)
  {
    forall c | 0 <= c < |m| && InPayload(t, k, 0, c)
      ensures m[c] == m2[c]
    {
      if w <= c < w + Words(o) {
        HeldNoPayload(t, k, w, o, c);
      }
    }
  }

  lemma PopStep(m: seq<nat>, heads: seq<nat>, base: nat, lists: seq<seq<nat>>, t: Tree, k: nat, used: nat, o: nat)
    requires Good(m, heads, base, lists, t, k, used) && MIN_ORDER <= o <= k && lists[o] != []
    ensures var w := lists[o][0];
            && heads[o] == Addr(base, w) && w + 2 < |m| && w in FreeAt(t, k, 0, o) && HasNode(t, k, w, o)
            && Carrying(m, heads[o := m[w + 2]], base, lists[o := lists[o][1..]],
                        Put(t, k, w, o, HOLE), k, used, w, o)
            && SamePayload(t, Put(t, k, w, o, HOLE), k)
  {
    hide FreeAt, InPayload, Rep, RepEx, Chain, Coalesced, UsedBytes, Deep, Words, Put, Sub, HasNode;
    var w := lists[o][0];
    assert ListOk(m, heads[o], base, lists[o], t, k, o);
    ChainHead(m, base, heads[o], lists[o]);
    ListMember(m, heads[o], base, lists[o], t, k, o, 0);
    TakeFree(t, k, w, o);
    ListsPop(m, heads, base, lists, t, Put(t, k, w, o, HOLE), k, o);
    RepToEx(m, base, t, k, 0, w, o);
    ExIgnoresHole(m, base, t, k, 0, w, o, HOLE);
  }

  lemma ChainHead(m: seq<nat>, base: nat, head: nat, q: seq<nat>)
    requires Chain(m, base, head, q)
    ensures q == [] ==> head == 0
    ensures q != [] ==> head == Addr(base, q[0])
  {
  }

  /** Header words and link of a block that is pushed. */
  function Pushed(m: seq<nat>, w: nat, o: nat, head: nat): seq<nat>
    requires w + 2 < |m|
  {
    m[w := MAGIC_FREE][w + 1 := o][w + 2 := head]
  }

  lemma SplitStep(m: seq<nat>, heads: seq<nat>, base: nat, lists: seq<seq<nat>>, t: Tree, k: nat, used: nat,
                  w: nat, o: nat)
    requires Carrying(m, heads, base, lists, t, k, used, w, o) && o > MIN_ORDER
    ensures var half := w + Words(o - 1);
            var t2 := Put(t, k, w, o, Split(HOLE, Free));
            && half + 2 < |m|
            && var m2 := Pushed(m, half, o - 1, heads[o - 1]);
               && Carrying(m2, heads[o - 1 := Addr(base, half)], base, lists[o - 1 := [half] + lists[o - 1]],
                           t2, k, used, w, o - 1)
               && SamePayload(t, t2, k) && PayloadKept(m, m2, t, k)
  {
    hide FreeAt, InPayload, Rep, RepEx, ListsOk, Coalesced, UsedBytes, Put, Sub, HasNode, SamePayload;
    WordsHalf(o);
    var half := w + Words(o - 1);
    var t2 := Put(t, k, w, o, Split(HOLE, Free));
    SplitHeld(t, k, w, o);
    assert |heads| == |lists| && k < |lists| by { ListsCount(m, heads, base, lists, t, k); }
    var m2 := Pushed(m, half, o - 1, heads[o - 1]);
    ExFrame(m, m2, base, t, k, 0, w, o);
    ExSplit(m2, base, t, k, 0, w, o, HOLE);
    ListsPush(m, m2, heads, base, lists, t, t2, k, w, o, half, o - 1);
    HeldKept(m, m2, t, k, w, o);
    WordsMonotone(o - 1, k);
  }

  lemma ListsCount(m: seq<nat>, heads: seq<nat>, base: nat, lists: seq<seq<nat>>, t: Tree, k: nat)
    requires Deep(t, k) && ListsOk(m, heads, base, lists, t, k)
    ensures |heads| == |lists| && k < |lists|
  {
  }

  /** The held block becomes free and joins its list. */
  lemma FillFreeStep(m: seq<nat>, heads: seq<nat>, base: nat, lists: seq<seq<nat>>, t: Tree, k: nat, used: nat,
                     w: nat, o: nat)
    requires Carrying(m, heads, base, lists, t, k, used, w, o)
    requires o < k ==>
               HasNode(t, k, Sibling(k, w, o), o) && !Sub(t, k, Sibling(k, w, o), o).Free?
    ensures w + 2 < |m| && o < |heads| == |lists|
    ensures var t2 := Put(t, k, w, o, Free);
            var m2 := Pushed(m, w, o, heads[o]);
            && Good(m2, heads[o := Addr(base, w)], base, lists[o := [w] + lists[o]], t2, k, used)
            && SamePayload(t, t2, k) && PayloadKept(m, m2, t, k)
  {
    hide FreeAt, InPayload, RepEx, ListsOk, Coalesced, UsedBytes, Put, Sub, HasNode, SamePayload, Words;
    var t2 := Put(t, k, w, o, Free);
    PutToggle(t, k, w, o, Free);
    PutSub(t, k, w, o);
    FreeCoalesced(t, k, w, o, HOLE);
    ListsCount(m, heads, base, lists, t, k);
    var m2 := Pushed(m, w, o, heads[o]);
    ExFrame(m, m2, base, t, k, 0, w, o);
    ExToRep(m2, base, t, k, 0, w, o, Free);
    ListsPush(m, m2, heads, base, lists, t, t2, k, w, o, w, o);
    HeldKept(m, m2, t, k, w, o);
  }

  /** The held block becomes an allocated block with the given payload. */
  lemma FillUsedStep(m: seq<nat>, heads: seq<nat>, base: nat, lists: seq<seq<nat>>, t: Tree, k: nat, used: nat,
                     w: nat, o: nat, word: nat, len: nat, align: nat)
    requires Carrying(m, heads, base, lists, t, k, used, w, o) && PayloadOk(base, o, w, word, len, align)
    ensures 0 < word < |m| && w + 1 < |m|
    ensures var t2 := Put(t, k, w, o, Used(word, len, align));
            var m2 := m[w := MAGIC_ALLOC][w + 1 := o][word - 1 := Addr(base, w)];
            && Good(m2, heads, base, lists, t2, k, used + BlockBytes(o))
            && PayloadKept(m, m2, t, k)
            && SameFree(t, t2, k)
  {
    hide FreeAt, InPayload, RepEx, ListsOk, Coalesced, UsedBytes, Put, Sub, HasNode, SamePayload, Words;
    var s := Used(word, len, align);
    var t2 := Put(t, k, w, o, s);
    var m2 := m[w := MAGIC_ALLOC][w + 1 := o][word - 1 := Addr(base, w)];
    PutSameFree(t, k, w, o, s);
    PutCoalesced(t, k, w, o, s);
    ExFrame(m, m2, base, t, k, 0, w, o);
    ExToRep(m2, base, t, k, 0, w, o, s);
    forall j, x | x in FreeAt(t, k, 0, j) && x + 2 < |m|
      ensures m[x + 2] == m2[x + 2]
    {
      LinksApart(t, k, w, o, j, x);
    }
    ListsSame(m, m2, heads, base, lists, t, t2, k);
    HeldKept(m, m2, t, k, w, o);
  }

  /** An allocated block becomes the held one. */
  lemma TakeUsedStep(m: seq<nat>, heads: seq<nat>, base: nat, lists: seq<seq<nat>>, t: Tree, k: nat, used: nat,
                     w: nat, o: nat)
    requires Good(m, heads, base, lists, t, k, used)
    requires MIN_ORDER <= o && HasNode(t, k, w, o) && Sub(t, k, w, o).Used?
    ensures w + 1 < |m| && used >= BlockBytes(o)
    ensures var t2 := Put(t, k, w, o, HOLE);
            var m2 := m[w := MAGIC_FREE][w + 1 := o];
            && Carrying(m2, heads, base, lists, t2, k, used - BlockBytes(o), w, o)
            && PayloadKept(m, m2, t2, k)
            && SameFree(t, t2, k)
  {
    hide FreeAt, InPayload, Rep, RepEx, ListsOk, Coalesced, UsedBytes, Put, Sub, SamePayload, Words;
    var t2 := Put(t, k, w, o, HOLE);
    PutSameFree(t, k, w, o, HOLE);
    PutCoalesced(t, k, w, o, HOLE);
    PutNode(t, k, w, o, HOLE);
    NodeOrder(t, k, w, o);
    UsedAtLeast(t2, k, w, o);
    var m2 := m[w := MAGIC_FREE][w + 1 := o];
    RepToEx(m, base, t, k, 0, w, o);
    ExIgnoresHole(m, base, t, k, 0, w, o, HOLE);
    ExFrame(m, m2, base, t2, k, 0, w, o);
    forall j, x | x in FreeAt(t, k, 0, j) && x + 2 < |m|
      ensures m[x + 2] == m2[x + 2]
    {
      FreeApart(t, k, 0, w, o, j, x);
    }
    ListsSame(m, m2, heads, base, lists, t, t2, k);
    HeldKept(m, m2, t2, k, w, o);
  }

  lemma NodeOrder(t: Tree, k: nat, w: int, o: nat)
    requires MIN_ORDER <= o && HasNode(t, k, w, o)
    ensures o <= k
  {
  }

  /** An allocated block is part of the sum. */
  lemma {:induction false} UsedAtLeast(t: Tree, k: nat, w: int, o: nat)
    requires MIN_ORDER <= o && Deep(t, k) && HasNode(t, k, w, o) && Sub(t, k, w, o).Used?
    ensures UsedBytes(t, k) >= BlockBytes(o)
    decreases k
  {
    if o < k {
      if w < Words(k - 1) {
        UsedAtLeast(t.left, k - 1, w, o);
      } else {
        UsedAtLeast(t.right, k - 1, w - Words(k - 1), o);
      }
    }
  }

  /** `free_list_remove` of block b from its list, by head or by link. */
  ghost predicate Unlinked(m: seq<nat>, heads: seq<nat>, m2: seq<nat>, heads2: seq<nat>,
                           lists: seq<seq<nat>>, lists2: seq<seq<nat>>, o: nat, b: nat)
  {
    && o < |lists| == |heads| && b + 2 < |m|
    && exists i :: 0 <= i < |lists[o]| && lists[o][i] == b
         && lists2 == lists[o := lists[o][..i] + lists[o][i + 1..]]
         && if i == 0 then m2 == m && heads2 == heads[o := m[b + 2]]
            else lists[o][i - 1] + 2 < |m| && heads2 == heads && m2 == m[lists[o][i - 1] + 2 := m[b + 2]]
  }

  /** The free buddy leaves its list and merges with the held block. */
  lemma MergeStep(m: seq<nat>, heads: seq<nat>, base: nat, lists: seq<seq<nat>>, t: Tree, k: nat, used: nat,
                  w: nat, o: nat, m2: seq<nat>, heads2: seq<nat>, lists2: seq<seq<nat>>)
    requires Carrying(m, heads, base, lists, t, k, used, w, o) && o < k
    requires HasNode(t, k, Sibling(k, w, o), o) && Sub(t, k, Sibling(k, w, o), o) == Free
    requires Sibling(k, w, o) >= 0 && Unlinked(m, heads, m2, heads2, lists, lists2, o, Sibling(k, w, o))
    ensures Parent(k, w, o) >= 0 && HasNode(t, k, Parent(k, w, o), o + 1)
    ensures var t2 := Put(t, k, Parent(k, w, o), o + 1, HOLE);
            && Carrying(m2, heads2, base, lists2, t2, k, used, Parent(k, w, o), o + 1)
            && SamePayload(t, t2, k) && PayloadKept(m, m2, t, k)
            && (forall c :: w <= c < w + Words(o) && c < |m| ==> m2[c] == m[c])
            && Parent(k, w, o) <= w && w + Words(o) <= Parent(k, w, o) + Words(o + 1)
  {
    hide FreeAt, InPayload, Rep, RepEx, ListsOk, Coalesced, UsedBytes, Put, Sub, HasNode, Words, Sibling;
    hide Unlinked, PayloadKept;
    HeldIntact(m, heads, base, lists, t, k, w, o, m2, heads2, lists2);
    SiblingNode(t, k, w, o);
    var b := Sibling(k, w, o);
    var p := Parent(k, w, o);
    MergeHeld(t, k, w, o);
    var t2 := Put(t, k, p, o + 1, HOLE);
    ExSibling(m, base, t, k, 0, w, o);
    ExIgnoresHole(m, base, t, k, 0, p, o + 1, HOLE);
    WordsHalf(o + 1);
    UnlinkedLists(m, heads, base, lists, t, t2, k, o, b, m2, heads2, lists2, p, o + 1);
  }

  /** Unlinking writes nothing into the held block. */
  lemma HeldIntact(m: seq<nat>, heads: seq<nat>, base: nat, lists: seq<seq<nat>>, t: Tree, k: nat, w: nat, o: nat,
                   m2: seq<nat>, heads2: seq<nat>, lists2: seq<seq<nat>>)
    requires Deep(t, k) && Held(t, k, w, o) && ListsOk(m, heads, base, lists, t, k) && MIN_ORDER <= o < k && Sibling(k, w, o) >= 0
    requires Unlinked(m, heads, m2, heads2, lists, lists2, o, Sibling(k, w, o))
    ensures |m2| == |m| && forall c :: w <= c < w + Words(o) && c < |m| ==> m2[c] == m[c]
  {
    hide FreeAt, InPayload, Words, Deep, ListsOk, Unlinked, Held, Sibling;
    var i := UnlinkedAt(m, heads, m2, heads2, lists, lists2, o, Sibling(k, w, o));
    if i > 0 {
      ListsMember(m, heads, base, lists, t, k, o, i - 1);
      LinksApart(t, k, w, o, o, lists[o][i - 1]);
    }
  }

  /** Unlinking a block keeps lists, headers and payloads. */
  lemma UnlinkedLists(m: seq<nat>, heads: seq<nat>, base: nat, lists: seq<seq<nat>>, t: Tree, t2: Tree, k: nat,
                      o: nat, b: nat, m2: seq<nat>, heads2: seq<nat>, lists2: seq<seq<nat>>, p: nat, po: nat)
    requires Deep(t, k) && Deep(t2, k) && ListsOk(m, heads, base, lists, t, k) && o <= k && |m| == Words(k)
    requires Gained(t2, t, k, b, o) && Unlinked(m, heads, m2, heads2, lists, lists2, o, b)
    requires MIN_ORDER <= po && HasNode(t2, k, p, po) && RepEx(m, base, t2, k, 0, p, po)
    ensures |m2| == |m| && ListsOk(m2, heads2, base, lists2, t2, k)
    ensures RepEx(m2, base, t2, k, 0, p, po) && PayloadKept(m, m2, t, k)
  {
    hide FreeAt, InPayload, RepEx, HasNode, Words, Deep, Gained, ListsOk, ListOk, Chain, Unlinked, PayloadKept;
    var i := UnlinkedAt(m, heads, m2, heads2, lists, lists2, o, b);
    ListsCount(m, heads, base, lists, t, k);
    if i == 0 {
      assert lists[o][..0] + lists[o][1..] == lists[o][1..];
      ListsPop(m, heads, base, lists, t, t2, k, o);
      NothingWritten(m, t, k);
    } else {
      ListsRemove(m, heads, base, lists, t, t2, k, o, i);
      LinkStays(m, heads, base, lists, t, t2, k, p, po, o, i, m[b + 2]);
    }
  }

  lemma NothingWritten(m: seq<nat>, t: Tree, k: nat)
    requires Deep(t, k)
    ensures PayloadKept(m, m, t, k)
  {
  }

  lemma UnlinkedAt(m: seq<nat>, heads: seq<nat>, m2: seq<nat>, heads2: seq<nat>,
                   lists: seq<seq<nat>>, lists2: seq<seq<nat>>, o: nat, b: nat) returns (i: nat)
    requires Unlinked(m, heads, m2, heads2, lists, lists2, o, b)
    ensures o < |lists| == |heads| && b + 2 < |m|
    ensures i < |lists[o]| && lists[o][i] == b
    ensures lists2 == lists[o := lists[o][..i] + lists[o][i + 1..]]
    ensures i == 0 ==> m2 == m && heads2 == heads[o := m[b + 2]]
    ensures i > 0 ==> lists[o][i - 1] + 2 < |m| && heads2 == heads && m2 == m[lists[o][i - 1] + 2 := m[b + 2]]
  {
    i :| 0 <= i < |lists[o]| && lists[o][i] == b
         && lists2 == lists[o := lists[o][..i] + lists[o][i + 1..]]
         && if i == 0 then m2 == m && heads2 == heads[o := m[b + 2]]
            else lists[o][i - 1] + 2 < |m| && heads2 == heads && m2 == m[lists[o][i - 1] + 2 := m[b + 2]];
  }

  lemma ListsMember(m: seq<nat>, heads: seq<nat>, base: nat, lists: seq<seq<nat>>, t: Tree, k: nat, o: nat, i: nat)
    requires Deep(t, k) && ListsOk(m, heads, base, lists, t, k) && o < |lists| && i < |lists[o]|
    ensures lists[o][i] in FreeAt(t, k, 0, o)
    ensures forall j :: 0 <= j < |lists[o]| && j != i ==> lists[o][j] != lists[o][i]
  {
    assert ListOk(m, heads[o], base, lists[o], t, k, o);
    ListMember(m, heads[o], base, lists[o], t, k, o, i);
  }

  /** Rewriting the link before position i keeps headers and payloads. */
  lemma LinkStays(m: seq<nat>, heads: seq<nat>, base: nat, lists: seq<seq<nat>>, t: Tree, t2: Tree, k: nat,
                  p: nat, po: nat, o: nat, i: nat, v: nat)
    requires MIN_ORDER <= po && Deep(t, k) && Deep(t2, k) && HasNode(t2, k, p, po) && |m| == Words(k)
    requires ListsOk(m, heads, base, lists, t, k) && o < |lists| && 0 < i < |lists[o]|
    requires RepEx(m, base, t2, k, 0, p, po) && Gained(t2, t, k, lists[o][i], o)
    ensures lists[o][i - 1] + 2 < |m| && RepEx(m[lists[o][i - 1] + 2 := v], base, t2, k, 0, p, po)
    ensures PayloadKept(m, m[lists[o][i - 1] + 2 := v], t, k)
  {
    hide ListsOk, RepEx, FreeAt, Words, InPayload, HasNode, Deep;
    var x := lists[o][i - 1];
    ListsMember(m, heads, base, lists, t, k, o, i - 1);
    assert x in FreeAt(t2, k, 0, o);
    ExLink(m, base, t2, k, 0, p, po, o, x, v);
    FreeAtRange(t, k, 0, o, x);
    PayloadNotFree(t, k, 0, x + 2, o, x);
  }
}
