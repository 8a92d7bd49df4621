/** The session registry of a connection (protocol/connection.c): fresh nonzero ids from
    a wrapping 64-bit counter, at most sixteen open at a time. */
module Sessions {
  import opened Mem
  import opened Streams
  import opened Seqs

  const MAX_SESSIONS: nat := 16

  /** Unsigned 64-bit increment. */
  function Succ(x: U64): U64 {
    if x == U64_MAX then 0 else x + 1
  }

  /** The counter after k increments. */
  function Ahead(x: U64, k: nat): U64 {
    if k == 0 then x else Succ(Ahead(x, k - 1))
  }

  /** The ids passed over by k increments. */
  ghost function Passed(x: U64, k: nat): set<U64> {
    if k == 0 then {} else Passed(x, k - 1) + {Ahead(x, k - 1)}
  }

  lemma {:induction false} AheadValue(x: U64, k: nat)
    requires k <= U64_MAX
    ensures Ahead(x, k) == if x + k < U64_SIZE then x + k else x + k - U64_SIZE
  {
    if k > 0 {
      AheadValue(x, k - 1);
    }
  }

  lemma {:induction false} PassedIndex(x: U64, k: nat, id: U64) returns (j: nat)
    requires id in Passed(x, k)
    ensures j < k && id == Ahead(x, j)
  {
    if id == Ahead(x, k - 1) {
      j := k - 1;
    } else {
      j := PassedIndex(x, k - 1, id);
    }
  }

  /** Fewer than 2^64 consecutive ids are all different. */
  lemma {:induction false} PassedSize(x: U64, k: nat)
    requires k <= U64_MAX
    ensures |Passed(x, k)| == k && Ahead(x, k) !in Passed(x, k)
  {
    if k > 0 {
      PassedSize(x, k - 1);
    }
    if Ahead(x, k) in Passed(x, k) {
      var j := PassedIndex(x, k, Ahead(x, k));
      AheadValue(x, j);
      AheadValue(x, k);
    }
  }

  function Members(s: seq<U64>): (m: set<U64>)
    ensures forall x :: x in m <==> x in s
    ensures |m| <= |s|
    decreases |s|
  {
    if s == [] then {} else {s[0]} + Members(s[1..])
  }

  /** Ids that were skipped were zero or open, so there are at most seventeen. */
  lemma SkipBound(sessions: seq<U64>, first: U64, k: nat)
    requires |sessions| == MAX_SESSIONS && k <= 18
    requires forall id :: id in Passed(first, k) ==> id == 0 || id in sessions
    ensures k <= 17
  {
    PassedSize(first, k);
    SubsetSize(Passed(first, k), Members(sessions) + {0});
  }

  class Registry {
    const sessions: array<U64>
    var next: U64

    ghost predicate Valid()
      reads this, sessions
    {
      sessions.Length == MAX_SESSIONS && DistinctIds(sessions[..])
    }

    constructor ()
      ensures Valid() && fresh(sessions) && next == 1
      ensures forall i :: 0 <= i < MAX_SESSIONS ==> sessions[i] == 0
    {
      sessions := new U64[MAX_SESSIONS](_ => 0);
      next := 1;
    }

    /** `pai_proto_conn_session_active`. */
    method Active(id: U64) returns (yes: bool)
      requires Valid()
      ensures yes <==> id != 0 && id in sessions[..]
    {
      if id == 0 {
        return false;
      }
      var i := 0;
      while i < MAX_SESSIONS
        invariant 0 <= i <= MAX_SESSIONS && id !in sessions[..i]
      {
        if sessions[i] == id {
          return true;
        }
        i := i + 1;
      }
      assert sessions[..i] == sessions[..];
      yes := false;
    }

    /** `pai_proto_conn_session_open`. The id search always ends; the id is the next one
        that is neither zero nor open, also after the counter has wrapped. */
    method Open() returns (st: Status, id: U64)
      requires Valid()
      modifies this, sessions
      ensures Valid()
      ensures id != 0 && id !in old(sessions[..]) && next == Succ(id)
      ensures exists k :: 0 <= k <= 17 && id == Ahead(old(next), k)
                && forall j :: j in Passed(old(next), k) ==> j == 0 || j in old(sessions[..])
      ensures st == Ok <==> 0 in old(sessions[..])
      ensures st == Ok ==> sessions[..] == old(sessions[..])[Find(old(sessions[..]), 0) := id]
      ensures st != Ok ==> st == NoMem && sessions[..] == old(sessions[..])
    {
      ghost var first, k := next, 0;
      ghost var table := sessions[..];
      var taken := true;
      id := 0;
      while taken
        invariant 0 <= k <= 18 && sessions[..] == table
        invariant taken ==> next == Ahead(first, k) && k <= 17
        invariant taken ==> forall j :: j in Passed(first, k) ==> j == 0 || j in table
        invariant !taken ==> 0 < k && id == Ahead(first, k - 1) && id != 0 && id !in table && next == Succ(id)
        invariant !taken ==> forall j :: j in Passed(first, k - 1) ==> j == 0 || j in table
        modifies this
        decreases 18 - k, taken
      {
        id := next;
        next := Succ(next);
        if id != 0 {
          taken := Active(id);
        }
        k := k + 1;
        if taken {
          SkipBound(table, first, k);
        }
      }
      assert id == Ahead(first, k - 1);
      var i := 0;
      while i < MAX_SESSIONS
        invariant 0 <= i <= MAX_SESSIONS && sessions[..] == table && 0 !in table[..i]
        modifies {}
      {
        if sessions[i] == 0 {
          break;
        }
        i := i + 1;
      }
      if i == MAX_SESSIONS {
        assert table[..i] == table;
        return NoMem, id;
      }
      assert Find(table, 0) == i;
      sessions[i] := id;
      st := Ok;
    }

    /** `pai_proto_conn_session_close`. */
    method Close(id: U64)
      requires Valid()
      modifies sessions
      ensures Valid()
      ensures id != 0 ==> id !in sessions[..]
      ensures forall r :: r != 0 && r != id ==> (r in sessions[..] <==> r in old(sessions[..]))
    {
      ghost var table := sessions[..];
      var i := 0;
      while i < MAX_SESSIONS
        invariant 0 <= i <= MAX_SESSIONS && sessions[..] == table && id !in table[..i]
        modifies {}
      {
        if sessions[i] == id {
          break;
        }
        i := i + 1;
      }
      if i < MAX_SESSIONS {
        sessions[i] := 0;
        CloseSlot(table, i, id);
      } else {
        assert table[..i] == table;
      }
    }
  }

  lemma CloseSlot(s: seq<U64>, i: nat, id: U64)
    requires DistinctIds(s) && i < |s| && s[i] == id
    ensures DistinctIds(s[i := 0])
    ensures id != 0 ==> id !in s[i := 0]
    ensures forall r :: r != 0 && r != id ==> (r in s[i := 0] <==> r in s)
  {
    var t := s[i := 0];
    forall r | r != 0 && r != id && r in s
      ensures r in t
    {
      var j :| 0 <= j < |s| && s[j] == r;
      assert t[j] == r;
    }
  }
}
