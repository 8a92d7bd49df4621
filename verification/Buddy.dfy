/** The buddy suballocator of memory/allocator.c over an array of machine words. */
module Buddy {
  import opened Mem
  import opened BuddyTree
  import opened BuddyMemory
  import opened BuddySteps
  import opened BuddyFacts

  const MAX_ORDER: nat := 30
  const MIN_SIZE: nat := 128

  class Buddy {
    const base: nat
    const size: nat
    const maxOrder: nat
    const mem: array<nat>
    const heads: array<nat>
    var usedBytes: nat
    var allocs: nat
    var frees: nat
    var splits: nat
    var merges: nat
    ghost var tree: Tree
    ghost var lists: seq<seq<nat>>

    predicate Shape() {
      && MIN_ORDER < maxOrder <= MAX_ORDER
      && size == BlockBytes(maxOrder)
      && base > 0 && base % size == 0 && base + size <= U64_SIZE
      && mem.Length == Words(maxOrder)
      && heads.Length == MAX_ORDER + 1
      && mem != heads
    }

    /** Headers, lists and counters describe the tree, in which no two buddies are free. */
    ghost predicate Valid()
      reads this, mem, heads
    {
      && Shape()
      && Good(mem[..], heads[..], base, lists, tree, maxOrder, usedBytes)
    }

    /** As Valid, but for the block (w, o) that an operation holds. */
    ghost predicate Holding(w: nat, o: nat)
      reads this, mem, heads
    {
      && Shape()
      && Carrying(mem[..], heads[..], base, lists, tree, maxOrder, usedBytes, w, o)
    }

    constructor Over(memory: array<nat>, address: U64, bytes: U64, order: nat)
      requires MIN_ORDER < order <= MAX_ORDER && bytes == BlockBytes(order)
      requires address > 0 && address % bytes == 0 && address + bytes <= U64_SIZE
      requires memory.Length == Words(order)
      modifies memory
      ensures Valid() && fresh(heads) && mem == memory && base == address && size == bytes
      ensures tree == Free && usedBytes == 0
    {
      base, size, maxOrder, mem := address, bytes, order, memory;
      heads := new nat[MAX_ORDER + 1](_ => NULL);
      usedBytes, allocs, frees, splits, merges := 0, 0, 0, 0, 0;
      tree := Free;
      lists := seq(MAX_ORDER + 1, i => if i == order then [0] else []);
      new;
      ghost var h0 := heads[..];
      Push(order, 0);
      OneBlockGood(mem[..], heads[..], base, lists, order, h0);
    }

    /** `pai_buddy_init`: the caller owns `bytes` bytes of memory at `address`. */
    static method Init(memory: array<nat>, address: U64, bytes: U64) returns (st: Status, buddy: Buddy?)
      requires memory.Length == bytes / 8 && address + bytes <= U64_SIZE && bytes <= Pow2(MAX_ORDER)
      modifies memory
      ensures st == Ok <==> address != NULL && IsPow2(bytes) && bytes >= MIN_SIZE && address % bytes == 0
      ensures st != Ok ==> st == InvalidArg && memory[..] == old(memory[..])
      ensures st == Ok ==> buddy != null && fresh(buddy) && fresh(buddy.heads) && buddy.Valid()
                           && buddy.mem == memory && buddy.base == address && buddy.size == bytes
                           && buddy.tree == Free
    {
      buddy := null;
      if address == NULL || !IsPow2(bytes) || bytes < MIN_SIZE || address % bytes != 0 {
        return InvalidArg, buddy;
      }
      var order := FloorLog2(bytes);
      RegionOrder(bytes, order);
      buddy := new Buddy.Over(memory, address, bytes, order);
      st := Ok;
    }

    /** `block_set_header`. */
    method SetHeader(w: nat, magic: nat, order: nat)
      requires w + 1 < mem.Length
      modifies mem
      ensures mem[..] == old(mem[..])[w := magic][w + 1 := order]
    {
      mem[w] := magic;
      mem[w + 1] := order;
    }

    /** `free_list_push`. */
    method Push(order: nat, w: nat)
      requires order < heads.Length && w + 2 < mem.Length && mem != heads
      modifies mem, heads
      ensures mem[..] == Pushed(old(mem[..]), w, order, old(heads[order]))
      ensures heads[..] == old(heads[..])[order := Addr(base, w)]
    {
      SetHeader(w, MAGIC_FREE, order);
      mem[w + 2] := heads[order];
      heads[order] := Addr(base, w);
    }

    /** `free_list_pop`: the first block of the list becomes the held one. */
    method Pop(order: nat) returns (node: nat)
      requires Valid() && MIN_ORDER <= order <= maxOrder
      modifies heads, this`tree, this`lists
      ensures node == old(heads[order])
      ensures node == NULL ==> heads[..] == old(heads[..]) && tree == old(tree) && lists == old(lists)
      ensures node != NULL ==>
                && node >= base && (node - base) % 8 == 0
                && var w := (node - base) / 8;
                   && w in FreeAt(old(tree), maxOrder, 0, order) && HasNode(old(tree), maxOrder, w, order)
                   && tree == Put(old(tree), maxOrder, w, order, HOLE)
                   && Holding(w, order) && SamePayload(old(tree), tree, maxOrder)
    {
      hide FreeAt, Carrying, Put, HasNode, Words, SamePayload, ListsOk;
      node := heads[order];
      HeadIsEmpty(mem[..], heads[..], base, lists, tree, maxOrder, usedBytes, order);
      if node == NULL {
        return;
      }
      PopStep(mem[..], heads[..], base, lists, tree, maxOrder, usedBytes, order);
      var w := (node - base) / 8;
      tree := Put(tree, maxOrder, w, order, HOLE);
      lists := lists[order := lists[order][1..]];
      heads[order] := mem[w + 2];
    }

    /** `free_list_remove`: walks the links from the head to block b and cuts it out. */
    method Remove(order: nat, b: nat)
      requires Shape() && order <= maxOrder && Deep(tree, maxOrder)
      requires ListsOk(mem[..], heads[..], base, lists, tree, maxOrder)
      modifies mem, heads, this`lists
      ensures |lists| == heads.Length
      ensures b in old(lists)[order] ==>
                Unlinked(old(mem[..]), old(heads[..]), mem[..], heads[..], old(lists), lists, order, b)
      ensures b !in old(lists)[order] ==>
                mem[..] == old(mem[..]) && heads[..] == old(heads[..]) && lists == old(lists)
    {
      hide ListsOk, FreeAt, Words, Unlinked, Deep, Chain;
      ghost var m := mem[..];
      ListsCount(m, heads[..], base, lists, tree, maxOrder);
      ghost var q := lists[order];
      OneList(m, heads[..], base, lists, tree, maxOrder, order);
      ghost var i: nat := 0;
      var first, link := true, 0;
      var node: nat := heads[order];
      assert q[0..] == q;
      ChainStep(m, base, node, q, 0);
      while node != NULL && node != Addr(base, b)
        invariant i <= |q| && Chain(m, base, node, q[i..])
        invariant forall j :: 0 <= j < i ==> q[j] != b
        invariant node != NULL ==> i < |q| && node == Addr(base, q[i])
        invariant node == NULL ==> i == |q|
        invariant first == (i == 0)
        invariant !first ==> link == q[i - 1] + 2 && link < mem.Length
        modifies {}
        decreases |q| - i
      {
        ChainStep(m, base, node, q, i);
        first, link, i := false, (node - base) / 8 + 2, i + 1;
        node := mem[link];
        ChainStep(m, base, node, q, i);
      }
      if node != NULL {
        ChainStep(m, base, node, q, i);
        if first {
          heads[order] := mem[b + 2];
        } else {
          mem[link] := mem[b + 2];
        }
        lists := lists[order := q[..i] + q[i + 1..]];
        CutOut(m, old(heads[..]), mem[..], heads[..], old(lists), lists, order, b, i);
      }
    }

    /** The splitting loop of `pai_buddy_alloc`: the right halves become free blocks. */
    method SplitDown(w: nat, found: nat, order: nat)
      requires Holding(w, found) && MIN_ORDER <= order <= found
      modifies this`tree, this`lists, this`splits, mem, heads
      ensures Holding(w, order)
      ensures HasNode(old(tree), maxOrder, w, found)
      ensures tree == Put(old(tree), maxOrder, w, found, Spine(found, order, HOLE))
      ensures SamePayload(old(tree), tree, maxOrder)
      ensures PayloadKept(old(mem[..]), mem[..], old(tree), maxOrder)
      ensures splits == old(splits) + (found - order)
    {
      hide FreeAt, RepEx, ListsOk, Coalesced, UsedBytes, Put, Sub, HasNode, Words, InPayload, SamePayload, PayloadKept, Pushed;
      ghost var t0, m0 := tree, mem[..];
      PutSub(t0, maxOrder, w, found);
      Unchanged(m0, t0, maxOrder);
      var f := found;
      while f > order
        invariant order <= f <= found && Holding(w, f)
        invariant tree == Put(t0, maxOrder, w, found, Spine(found, f, HOLE))
        invariant SamePayload(t0, tree, maxOrder) && PayloadKept(m0, mem[..], t0, maxOrder)
        invariant splits == old(splits) + (found - f)
      {
        ghost var t, m := tree, mem[..];
        f := f - 1;
        var half := w + Words(f);
        SplitStep(m, heads[..], base, lists, t, maxOrder, usedBytes, w, f + 1);
        ListsCount(m, heads[..], base, lists, t, maxOrder);
        SpineStep(t0, maxOrder, w, found, f);
        tree := Put(tree, maxOrder, w, f + 1, Split(HOLE, Free));
        lists := lists[f := [half] + lists[f]];
        HeaderTwice(m, half, f, heads[f]);
        SetHeader(half, MAGIC_FREE, f);
        Push(f, half);
        splits := splits + 1;
        SameTrans(t0, t, tree, maxOrder);
        KeptTrans(m0, m, mem[..], t0, t, maxOrder);
      }
    }

    /** The scan of `pai_buddy_alloc` over the list heads. */
    method SmallestFree(order: nat) returns (f: nat)
      requires Valid() && MIN_ORDER <= order <= maxOrder
      ensures order <= f <= maxOrder + 1
      ensures NoneBelow(tree, maxOrder, order, f)
      ensures f <= maxOrder <==> !AllBlocked(tree, maxOrder, order)
      ensures f <= maxOrder ==> heads[f] != NULL
    {
      hide FreeAt, Good, AllBlocked;
      f := order;
      ghost var m, h := mem[..], heads[..];
      GoodTree(m, h, base, lists, tree, maxOrder, usedBytes);
      while f <= maxOrder && heads[f] == NULL
        invariant order <= f <= maxOrder + 1
        invariant NoneBelow(tree, maxOrder, order, f)
      {
        HeadIsEmpty(m, h, base, lists, tree, maxOrder, usedBytes, f);
        f := f + 1;
      }
      NoFreeIffAllBlocked(tree, maxOrder, order);
      if f <= maxOrder {
        HeadIsEmpty(m, h, base, lists, tree, maxOrder, usedBytes, f);
      }
    }

    /** The part of `pai_buddy_alloc` behind the scan: pop, split down, fill. */
    method Place(len: U64, align: U64, order: nat, found: nat) returns (ptr: nat, ghost w: nat, ghost word: nat)
      requires Valid() && MIN_ORDER <= order <= found <= maxOrder && heads[found] != NULL
      requires WellFormed(len, align) && Need(len, align) <= BlockBytes(order)
      modifies this`tree, this`lists, this`splits, this`usedBytes, this`allocs, mem, heads
      ensures Valid()
      ensures HasNode(old(tree), maxOrder, w, found) && Sub(old(tree), maxOrder, w, found) == Free
      ensures tree == Put(old(tree), maxOrder, w, found, Spine(found, order, Used(word, len, align)))
      ensures ptr == Addr(base, word) && Placed(base, w, align, word) && PayloadOk(base, order, w, word, len, align)
      ensures PayloadKept(old(mem[..]), mem[..], old(tree), maxOrder)
      ensures usedBytes == old(usedBytes) + BlockBytes(order)
      ensures allocs == old(allocs) + 1 && splits == old(splits) + (found - order)
    {
      hide FreeAt, RepEx, ListsOk, Coalesced, UsedBytes, Put, Sub, HasNode, Words, InPayload, SamePayload, PayloadKept, Good;
      hide Spine, PayloadOk, Placed, AlignUp;
      ghost var t0, m0 := tree, mem[..];
      GoodTree(m0, heads[..], base, lists, t0, maxOrder, usedBytes);
      Unchanged(m0, t0, maxOrder);
      var block := Pop(found);
      var at := (block - base) / 8;
      w := at;
      FreeNode(t0, maxOrder, w, found);
      ghost var t1 := tree;
      SplitDown(at, found, order);
      SplitTree(t0, maxOrder, w, found, order);
      ghost var t2, m2 := tree, mem[..];
      SameTrans(t0, t1, t2, maxOrder);
      KeptTrans(m0, m0, m2, t0, t1, maxOrder);
      BlockBoundary(base, size, t2, maxOrder, w, order);
      BaseByEight(base, size, maxOrder);
      PayloadFits(base, w, order, len, align);
      ptr := AlignUp(Addr(base, at) + HEADER_BYTES, align);
      var pay := (ptr - base) / 8;
      word := pay;
      FillUsedStep(m2, heads[..], base, lists, t2, maxOrder, usedBytes, w, order, word, len, align);
      SpineFill(t0, maxOrder, w, found, order, Used(word, len, align));
      SetHeader(at, MAGIC_ALLOC, order);
      usedBytes := usedBytes + BlockBytes(order);
      allocs := allocs + 1;
      mem[pay - 1] := Addr(base, at);
      tree := Put(tree, maxOrder, w, order, Used(word, len, align));
      KeptTrans(m0, m2, mem[..], t0, t2, maxOrder);
    }

    /** `pai_buddy_alloc`. It fails exactly when the request is malformed, exceeds the
        region, or every aligned range of its order meets an allocated block. */
    method Alloc(len: U64, align: U64) returns (ptr: nat, ghost w: nat, ghost word: nat, ghost found: nat)
      requires Valid()
      modifies this, mem, heads
      ensures Valid()
      ensures ptr == NULL <==>
                || !WellFormed(len, align)
                || Need(len, align) > size
                || AllBlocked(old(tree), maxOrder, OrderFor(Need(len, align), MIN_ORDER))
      ensures ptr == NULL ==>
                && tree == old(tree) && lists == old(lists) && usedBytes == old(usedBytes)
                && allocs == old(allocs) && splits == old(splits)
                && mem[..] == old(mem[..]) && heads[..] == old(heads[..])
      ensures ptr != NULL ==>
                var o := OrderFor(Need(len, align), MIN_ORDER);
                && o <= found && FirstFit(old(tree), maxOrder, o, w, found)
                && tree == Put(old(tree), maxOrder, w, found, Spine(found, o, Used(word, len, align)))
                && ptr == Addr(base, word) && Placed(base, w, align, word) && PayloadOk(base, o, w, word, len, align)
                && PayloadKept(old(mem[..]), mem[..], old(tree), maxOrder)
                && usedBytes == old(usedBytes) + BlockBytes(o)
                && allocs == old(allocs) + 1 && splits == old(splits) + (found - o)
      ensures frees == old(frees) && merges == old(merges)
    {
      hide FreeAt, Good, Put, Sub, HasNode, PayloadKept, AllBlocked, NoneBelow, Spine, AlignUp, PayloadOk, Placed;
      ptr, w, word, found := NULL, 0, 0, 0;
      GoodTree(mem[..], heads[..], base, lists, tree, maxOrder, usedBytes);
      if len == 0 || align == 0 || !IsPow2(align) || len > U64_MAX - align || len + align > U64_MAX - HEADER_BYTES {
        return;
      }
      var log := CeilLog2(len + align + HEADER_BYTES);
      ClampedLog(len + align + HEADER_BYTES, log, maxOrder);
      var order := if log < MIN_ORDER then MIN_ORDER else log;
      if order > maxOrder {
        return;
      }
      var f := SmallestFree(order);
      if f > maxOrder {
        return;
      }
      found := f;
      ptr, w, word := Place(len, align, order, f);
    }

    /** The word at `ptr - 8`; outside the region it is whatever the caller's memory holds there. */
    function CellAt(ptr: nat, outside: nat): nat
      requires Shape()
      reads mem
    {
      if base + 8 <= ptr <= base + size && (ptr - base) % 8 == 0 then mem[(ptr - base) / 8 - 1] else outside
    }

    /** `pai_buddy_free` does nothing: a null or foreign pointer, or a block that is not allocated. */
    predicate Ignores(ptr: nat, outside: nat)
      requires Shape()
      reads mem
    {
      || ptr == NULL
      || var block := CellAt(ptr, outside);
         || block < base || block >= base + size
         || mem[(block - base) / 8] != MAGIC_ALLOC
    }

    /** What the caller owes: if the cell before ptr names a place inside the region, it is
        the start of a word, and an allocation header there means ptr is that block's payload. */
    ghost predicate MayFree(ptr: nat, outside: nat)
      requires Shape()
      reads this, mem
    {
      var block := CellAt(ptr, outside);
      ptr != NULL && base <= block < base + size ==>
        && (block - base) % 8 == 0
        && var w := (block - base) / 8;
           mem[w] == MAGIC_ALLOC ==>
             && w + 1 < mem.Length && mem[w + 1] <= maxOrder
             && exists word :: Addr(base, word) == ptr && Live(tree, maxOrder, w, mem[w + 1], word)
    }

    /** A live payload may be freed, and freeing it is not ignored. */
    lemma LiveMayFree(w: nat, o: nat, word: nat, outside: nat)
      requires Valid() && Live(tree, maxOrder, w, o, word)
      ensures MayFree(Addr(base, word), outside) && !Ignores(Addr(base, word), outside)
      ensures CellAt(Addr(base, word), outside) == Addr(base, w) && mem[w + 1] == o
    {
      hide Good, Rep, HasNode, Sub, Words;
      LiveHeader(mem[..], heads[..], base, lists, tree, maxOrder, usedBytes, w, o);
      LiveOrder(tree, maxOrder, w, o, word);
    }

    /** The merging loop of `pai_buddy_free`: the held block joins its free buddies. */
    method MergeHeldUp(w: nat, o: nat) returns (v: nat, order: nat)
      requires Holding(w, o)
      modifies this`tree, this`lists, this`merges, mem, heads
      ensures o <= order <= maxOrder && Holding(v, order)
      ensures HasNode(old(tree), maxOrder, w, o)
      ensures Put(tree, maxOrder, v, order, Free) == Release(old(tree), maxOrder, w, o)
      ensures order < maxOrder ==>
                && HasNode(tree, maxOrder, Sibling(maxOrder, v, order), order)
                && !Sub(tree, maxOrder, Sibling(maxOrder, v, order), order).Free?
      ensures SamePayload(old(tree), tree, maxOrder)
      ensures PayloadKept(old(mem[..]), mem[..], old(tree), maxOrder)
      ensures forall c :: w <= c < w + Words(o) ==> mem[c] == old(mem[c])
      ensures (v == w || v + 8 <= w) && w + Words(o) <= v + Words(order)
    {
      hide FreeAt, RepEx, ListsOk, Coalesced, UsedBytes, Put, Sub, HasNode, Words, InPayload, SamePayload, PayloadKept;
      hide Release, Sibling, Unlinked, BuddyOf;
      ghost var t0, m0 := tree, mem[..];
      Unchanged(m0, t0, maxOrder);
      v, order := w, o;
      while order < maxOrder
        invariant o <= order <= maxOrder && Holding(v, order)
        invariant HasNode(t0, maxOrder, w, o)
        invariant Release(tree, maxOrder, v, order) == Release(t0, maxOrder, w, o)
        invariant SamePayload(t0, tree, maxOrder) && PayloadKept(m0, mem[..], t0, maxOrder)
        invariant forall c :: w <= c < w + Words(o) ==> mem[c] == m0[c]
        invariant (v == w || v + 8 <= w) && w + Words(o) <= v + Words(order)
      {
        ghost var t, m, h, l := tree, mem[..], heads[..], lists;
        SiblingTest(m, h, base, l, t, maxOrder, usedBytes, v, order);
        var b := BuddyOf(v, Words(order));
        if b >= mem.Length || mem[b] != MAGIC_FREE || mem[b + 1] != order {
          break;
        }
        Remove(order, b);
        MergeStep(m, h, base, l, t, maxOrder, usedBytes, v, order, mem[..], heads[..], lists);
        ReleaseMerge(t, maxOrder, v, order, HOLE);
        v := if b < v then b else v;
        tree := Put(t, maxOrder, v, order + 1, HOLE);
        order := order + 1;
        merges := merges + 1;
        SameTrans(t0, t, tree, maxOrder);
        KeptTrans(m0, m, mem[..], t0, t, maxOrder);
      }
      if order < maxOrder {
        SiblingTest(mem[..], heads[..], base, lists, tree, maxOrder, usedBytes, v, order);
      }
      ReleaseHeld(tree, maxOrder, v, order);
    }

    /** Merging and the push behind it: the block becomes free, merged all the way up. */
    method MergeUp(w: nat, o: nat)
      requires Holding(w, o) && mem[w] == MAGIC_FREE
      modifies this`tree, this`lists, this`merges, mem, heads
      ensures Valid()
      ensures HasNode(old(tree), maxOrder, w, o) && tree == Release(old(tree), maxOrder, w, o)
      ensures SamePayload(old(tree), tree, maxOrder)
      ensures PayloadKept(old(mem[..]), mem[..], old(tree), maxOrder)
      ensures mem[w] == MAGIC_FREE
      ensures forall c :: w + 3 <= c < w + Words(o) ==> mem[c] == old(mem[c])
    {
      hide FreeAt, RepEx, ListsOk, Coalesced, UsedBytes, Put, Sub, HasNode, Words, InPayload, SamePayload, PayloadKept;
      hide Release, Sibling;
      ghost var t0, m0 := tree, mem[..];
      var v, order := MergeHeldUp(w, o);
      ghost var t, m := tree, mem[..];
      FillFreeStep(m, heads[..], base, lists, t, maxOrder, usedBytes, v, order);
      Push(order, v);
      tree := Put(t, maxOrder, v, order, Free);
      lists := lists[order := [v] + lists[order]];
      SameTrans(t0, t, tree, maxOrder);
      KeptTrans(m0, m, mem[..], t0, t, maxOrder);
    }

    /** `pai_buddy_free`. A live block is released and merged all the way up; null, foreign
        and already freed pointers change nothing, so a second free is harmless. */
    method Dealloc(ptr: nat, outside: nat)
      requires Valid() && MayFree(ptr, outside)
      modifies this, mem, heads
      ensures Valid()
      ensures old(Ignores(ptr, outside)) ==>
                && tree == old(tree) && lists == old(lists) && usedBytes == old(usedBytes) && frees == old(frees)
                && mem[..] == old(mem[..]) && heads[..] == old(heads[..]) && merges == old(merges)
      ensures !old(Ignores(ptr, outside)) ==>
                var w, o := (old(CellAt(ptr, outside)) - base) / 8, old(mem[(CellAt(ptr, outside) - base) / 8 + 1]);
                && MIN_ORDER <= o && HasNode(old(tree), maxOrder, w, o) && Sub(old(tree), maxOrder, w, o).Used?
                && ptr == Addr(base, Sub(old(tree), maxOrder, w, o).word)
                && tree == Release(old(tree), maxOrder, w, o)
                && usedBytes + BlockBytes(o) == old(usedBytes) && frees == old(frees) + 1
                && PayloadKept(old(mem[..]), mem[..], tree, maxOrder)
      ensures Ignores(ptr, outside)
      ensures allocs == old(allocs) && splits == old(splits)
    {
      hide FreeAt, Good, Put, Sub, HasNode, Words, InPayload, SamePayload, PayloadKept, Release;
      if Ignores(ptr, outside) {
        return;
      }
      ghost var t0, m0 := tree, mem[..];
      GoodTree(m0, heads[..], base, lists, t0, maxOrder, usedBytes);
      var w := (CellAt(ptr, outside) - base) / 8;
      var order := mem[w + 1];
      ghost var word: nat :| Addr(base, word) == ptr && Live(tree, maxOrder, w, order, word);
      LiveHeader(m0, heads[..], base, lists, t0, maxOrder, usedBytes, w, order);
      TakeUsedStep(m0, heads[..], base, lists, t0, maxOrder, usedBytes, w, order);
      ReleaseIgnores(t0, maxOrder, w, order, HOLE);
      usedBytes := usedBytes - BlockBytes(order);
      frees := frees + 1;
      SetHeader(w, MAGIC_FREE, order);
      tree := Put(t0, maxOrder, w, order, HOLE);
      ghost var t1, m1 := tree, mem[..];
      MergeUp(w, order);
      GoodTree(mem[..], heads[..], base, lists, tree, maxOrder, usedBytes);
      KeptBack(m0, m1, mem[..], t1, tree, maxOrder);
    }

    /** The owner of a block writes to its payload. No header is touched, so the
        allocator's state stays valid and merge detection stays exact. */
    method UserWrite(c: nat, v: U64)
      requires Valid() && c < mem.Length && InPayload(tree, maxOrder, 0, c)
      modifies mem
      ensures Valid() && mem[..] == old(mem[..])[c := v]
    {
      hide FreeAt, ListsOk, UsedBytes, Coalesced, Words, InPayload, Rep;
      PayloadWrite(mem[..], heads[..], base, lists, tree, maxOrder, usedBytes, c, v);
      mem[c] := v;
    }

    /** `pai_buddy_used` and `pai_buddy_avail`: allocated and free blocks partition the region. */
    method UsedCount() returns (n: nat)
      requires Valid()
      ensures n == UsedBytes(tree, maxOrder) && n + UnusedBytes(tree, maxOrder) == size
    {
      BytesPartition(tree, maxOrder);
      n := usedBytes;
    }

    method Avail() returns (n: nat)
      requires Valid()
      ensures n == UnusedBytes(tree, maxOrder)
    {
      BytesPartition(tree, maxOrder);
      n := size - usedBytes;
    }
  }

  /** Allocate and free again: the blocks, the byte count and every payload word are as before. */
  method AllocThenFree(b: Buddy, len: U64, align: U64, outside: nat) returns (ptr: nat)
    requires b.Valid()
    modifies b, b.mem, b.heads
    ensures b.Valid()
    ensures b.tree == old(b.tree) && b.usedBytes == old(b.usedBytes)
    ensures PayloadKept(old(b.mem[..]), b.mem[..], old(b.tree), b.maxOrder)
  {
    hide Good, FreeAt, Put, Sub, HasNode, Words, InPayload, PayloadKept, Release, Spine, PayloadOk, Placed, AllBlocked, NoneBelow;
    ghost var t0, m0 := b.tree, b.mem[..];
    GoodTree(m0, b.heads[..], b.base, b.lists, t0, b.maxOrder, b.usedBytes);
    Unchanged(m0, t0, b.maxOrder);
    ghost var w, word, found;
    ptr, w, word, found := b.Alloc(len, align);
    if ptr != NULL {
      ghost var o := OrderFor(Need(len, align), MIN_ORDER);
      var u := Tree.Used(word, len, align);
      ghost var m1 := b.mem[..];
      SpineLive(t0, b.maxOrder, w, found, o, u);
      b.LiveMayFree(w, o, word, outside);
      b.Dealloc(ptr, outside);
      KeptOver(m0, m1, b.mem[..], t0, b.maxOrder);
    }
  }
}
