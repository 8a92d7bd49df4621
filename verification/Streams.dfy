/** The fixed tables of a connection: open inbound streams with their ordinals, and
    open sessions (protocol/connection.c). A zero id marks a free slot. */
module Streams {
  import opened Mem
  import opened Frame

  const MAX_STREAMS: nat := 16

  datatype Table = Table(ids: seq<U64>, seqs: seq<U32>)

  /** Every nonzero id has at most one slot. */
  ghost predicate DistinctIds(ids: seq<U64>) {
    forall i, j :: 0 <= i < j < |ids| && ids[i] != 0 ==> ids[i] != ids[j]
  }

  ghost predicate TableOk(t: Table) {
    |t.ids| == |t.seqs| == MAX_STREAMS && DistinctIds(t.ids)
  }

  /** First slot from i on that holds id, or -1. */
  function FindFrom(ids: seq<U64>, id: U64, i: nat): (r: int)
    requires i <= |ids|
    ensures -1 <= r < |ids|
    ensures r >= 0 ==> i <= r && ids[r] == id && forall j :: i <= j < r ==> ids[j] != id
    ensures r < 0 ==> forall j :: i <= j < |ids| ==> ids[j] != id
    decreases |ids| - i
  {
    if i == |ids| then -1 else if ids[i] == id then i else FindFrom(ids, id, i + 1)
  }

  /** `stream_index`. */
  function Find(ids: seq<U64>, id: U64): (r: int)
    ensures -1 <= r < |ids|
    ensures r >= 0 ==> ids[r] == id && forall j :: 0 <= j < r ==> ids[j] != id
    ensures r < 0 <==> id !in ids
  {
    FindFrom(ids, id, 0)
  }

  /** `stream_begin`: a stream may not be opened twice, and takes the first free slot. */
  function Begin(t: Table, id: U64): (r: (Status, Table))
    requires |t.ids| == |t.seqs|
    ensures |r.1.ids| == |r.1.seqs| == |t.ids|
  {
    if Find(t.ids, id) >= 0 then (Protocol, t)
    else
      var i := Find(t.ids, 0);
      if i >= 0 then (Ok, Table(t.ids[i := id], t.seqs[i := 0])) else (NoMem, t)
  }

  /** `stream_end`. */
  function End(t: Table, id: U64): (r: Table)
    requires |t.ids| == |t.seqs|
    ensures |r.ids| == |r.seqs| == |t.ids|
  {
    var i := Find(t.ids, id);
    if i >= 0 then Table(t.ids[i := 0], t.seqs[i := 0]) else t
  }

  /** Unsigned 32-bit increment. */
  function Inc32(x: U32): U32 {
    if x == 0xFFFF_FFFF then 0 else x + 1
  }

  /** The next ordinal of the stream in slot i. */
  function Bump(t: Table, i: nat): Table
    requires i < |t.seqs|
  {
    t.(seqs := t.seqs[i := Inc32(t.seqs[i])])
  }

  /** Whether stream r is open, and its ordinal. */
  predicate IsOpen(t: Table, r: U64) {
    r in t.ids
  }

  function Ordinal(t: Table, r: U64): U32
    requires |t.ids| == |t.seqs| && IsOpen(t, r)
  {
    t.seqs[Find(t.ids, r)]
  }

  /** A slot that holds a nonzero id is the one that `stream_index` finds. */
  lemma FindUnique(ids: seq<U64>, r: U64, i: nat)
    requires DistinctIds(ids) && i < |ids| && ids[i] == r != 0
    ensures Find(ids, r) == i
  {
    forall k | 0 <= k < i
      ensures ids[k] != r
    {
    }
  }

  /** Beginning a stream succeeds exactly when it is not open and a slot is free; it opens
      that stream with ordinal 0 and leaves every other one as it is. */
  lemma BeginTable(t: Table, id: U64, r: U64)
    requires TableOk(t) && id != 0 && r != 0
    ensures var (st, t2) := Begin(t, id);
            && TableOk(t2)
            && (st == Ok <==> !IsOpen(t, id) && 0 in t.ids)
            && (st != Ok ==> t2 == t)
            && (st == Ok ==> IsOpen(t2, id) && Ordinal(t2, id) == 0)
            && (st == Ok && r != id ==>
                  (IsOpen(t2, r) <==> IsOpen(t, r)) && (IsOpen(t, r) ==> Ordinal(t2, r) == Ordinal(t, r)))
  {
    var (st, t2) := Begin(t, id);
    if st == Ok {
      var i := Find(t.ids, 0);
      assert t2.ids[i] == id;
      FindUnique(t2.ids, id, i);
      if r != id {
        Elsewhere(t, t2, i, r);
      }
    }
  }

  /** Ending a stream closes it and leaves every other one as it is. */
  lemma EndTable(t: Table, id: U64, r: U64)
    requires TableOk(t) && r != 0
    ensures TableOk(End(t, id))
    ensures r == id ==> !IsOpen(End(t, id), r)
    ensures r != id ==> (IsOpen(End(t, id), r) <==> IsOpen(t, r))
                        && (IsOpen(t, r) ==> Ordinal(End(t, id), r) == Ordinal(t, r))
  {
    var t2 := End(t, id);
    var i := Find(t.ids, id);
    if i >= 0 {
      if r != id {
        Elsewhere(t, t2, i, r);
      } else {
        forall j | 0 <= j < |t2.ids|
          ensures t2.ids[j] != r
        {
          if j < i {
            assert t.ids[j] != t.ids[i];
          } else if j > i {
            assert t.ids[i] != t.ids[j];
          }
        }
      }
    }
  }

  /** Counting a token advances the ordinal of its own stream, modulo 2^32, and no other. */
  lemma BumpTable(t: Table, id: U64, r: U64)
    requires TableOk(t) && IsOpen(t, id) && r != 0
    ensures var t2 := Bump(t, Find(t.ids, id));
            && TableOk(t2) && (IsOpen(t2, r) <==> IsOpen(t, r))
            && (IsOpen(t, r) ==>
                  Ordinal(t2, r) == if r == id then Inc32(Ordinal(t, r)) else Ordinal(t, r))
  {
  }

  /** Changing slot i, which neither held nor holds r, does not concern stream r. */
  lemma Elsewhere(t: Table, t2: Table, i: nat, r: U64)
    requires TableOk(t) && TableOk(t2) && i < MAX_STREAMS && r != 0 && t.ids[i] != r && t2.ids[i] != r
    requires forall j :: 0 <= j < MAX_STREAMS && j != i ==> t2.ids[j] == t.ids[j] && t2.seqs[j] == t.seqs[j]
    ensures IsOpen(t2, r) <==> IsOpen(t, r)
    ensures IsOpen(t, r) ==> Ordinal(t2, r) == Ordinal(t, r)
  {
    if IsOpen(t, r) {
      var j := Find(t.ids, r);
      assert t2.ids[j] == r;
      FindUnique(t2.ids, r, j);
    }
    if IsOpen(t2, r) {
      var j := Find(t2.ids, r);
      assert t.ids[j] == r;
    }
  }

  /** The table as the connection's two arrays. */
  class StreamTable {
    const ids: array<U64>
    const seqs: array<U32>

    ghost predicate Valid()
      reads this
    {
      ids.Length == MAX_STREAMS && seqs.Length == MAX_STREAMS
    }

    ghost function View(): Table
      reads this, ids, seqs
    {
      Table(ids[..], seqs[..])
    }

    constructor ()
      ensures Valid() && fresh(ids) && fresh(seqs)
      ensures View() == Table(seq(MAX_STREAMS, _ => 0), seq(MAX_STREAMS, _ => 0))
    {
      ids := new U64[MAX_STREAMS](_ => 0);
      seqs := new U32[MAX_STREAMS](_ => 0);
    }

    method Index(id: U64) returns (r: int)
      requires Valid()
      ensures r == Find(ids[..], id)
    {
      var i := 0;
      while i < MAX_STREAMS
        invariant 0 <= i <= MAX_STREAMS
        invariant Find(ids[..], id) == FindFrom(ids[..], id, i)
      {
        if ids[i] == id {
          return i;
        }
        i := i + 1;
      }
      return -1;
    }

    method BeginStream(id: U64) returns (st: Status)
      requires Valid()
      modifies ids, seqs
      ensures (st, View()) == Begin(old(View()), id)
    {
      var at := Index(id);
      if at >= 0 {
        return Protocol;
      }
      var i := Index(0);
      if i < 0 {
        return NoMem;
      }
      ids[i] := id;
      seqs[i] := 0;
      st := Ok;
    }

    method EndStream(id: U64)
      requires Valid()
      modifies ids, seqs
      ensures View() == End(old(View()), id)
    {
      var i := Index(id);
      if i >= 0 {
        ids[i] := 0;
        seqs[i] := 0;
      }
    }

    method Count(i: nat)
      requires Valid() && i < MAX_STREAMS
      modifies seqs
      ensures View() == Bump(old(View()), i)
    {
      seqs[i] := Inc32(seqs[i]);
    }
  }
}
