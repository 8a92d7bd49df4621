/** Sums over sequences, the effect of permutations on them, and sizes of sets. */
module Seqs {

  function Sum(s: seq<nat>): nat {
    if s == [] then 0 else Sum(s[..|s| - 1]) + s[|s| - 1]
  }

  /** Sum of a weight over the elements of a sequence. */
  function SumBy<T>(f: T -> nat, s: seq<T>): nat {
    if s == [] then 0 else SumBy(f, s[..|s| - 1]) + f(s[|s| - 1])
  }

  lemma {:induction false} SumByAppend<T>(f: T -> nat, s: seq<T>, t: seq<T>)
    ensures SumBy(f, s + t) == SumBy(f, s) + SumBy(f, t)
  {
    if t == [] {
      assert s + t == s;
    } else {
      var n := |t| - 1;
      assert (s + t)[..|s + t| - 1] == s + t[..n];
      SumByAppend(f, s, t[..n]);
    }
  }

  lemma SumByRemove<T>(f: T -> nat, s: seq<T>, i: nat)
    requires i < |s|
    ensures SumBy(f, s) == SumBy(f, s[..i] + s[i + 1..]) + f(s[i])
  {
    assert s == s[..i] + ([s[i]] + s[i + 1..]);
    SumByAppend(f, s[..i], [s[i]] + s[i + 1..]);
    SumByAppend(f, [s[i]], s[i + 1..]);
    SumByAppend(f, s[..i], s[i + 1..]);
    assert [s[i]][..0] == [];
    assert SumBy(f, [s[i]]) == f(s[i]);
  }

  lemma MultisetRemove<T>(s: seq<T>, i: nat)
    requires i < |s|
    ensures multiset(s[..i] + s[i + 1..]) == multiset(s) - multiset{s[i]}
  {
    assert s == s[..i] + [s[i]] + s[i + 1..];
  }

  /** A sum does not depend on the order of its terms. */
  lemma {:induction false} SumByPermutation<T>(f: T -> nat, s: seq<T>, t: seq<T>)
    requires multiset(s) == multiset(t)
    ensures SumBy(f, s) == SumBy(f, t)
    decreases |s|
  {
    if s == [] {
      assert |multiset(t)| == |t|;
      assert |multiset(s)| == 0;
    } else {
      var n := |s| - 1;
      var x := s[n];
      assert x in multiset(s);
      assert x in t;
      var i :| 0 <= i < |t| && t[i] == x;
      MultisetRemove(s, n);
      MultisetRemove(t, i);
      assert s[..n] + s[n + 1..] == s[..n];
      SumByPermutation(f, s[..n], t[..i] + t[i + 1..]);
      SumByRemove(f, t, i);
    }
  }

  lemma {:induction false} SumByMonotone<T>(f: T -> nat, g: T -> nat, s: seq<T>)
    requires forall i :: 0 <= i < |s| ==> f(s[i]) <= g(s[i])
    ensures SumBy(f, s) <= SumBy(g, s)
  {
    if s != [] {
      SumByMonotone(f, g, s[..|s| - 1]);
    }
  }

  /** A prefix sums to no more than the whole. */
  lemma SumByPrefix<T>(f: T -> nat, s: seq<T>, k: nat)
    requires k <= |s|
    ensures SumBy(f, s[..k]) <= SumBy(f, s)
  {
    assert s == s[..k] + s[k..];
    SumByAppend(f, s[..k], s[k..]);
  }

  lemma SumByOne<T>(f: T -> nat, x: T)
    ensures SumBy(f, [x]) == f(x)
  {
    assert [x][..0] == [];
  }

  /* ---- sets ---- */

  lemma SubsetSize<T>(a: set<T>, b: set<T>)
    requires a <= b
    ensures |a| <= |b|
    ensures |a| == |b| ==> a == b
  {
    assert b == a + (b - a);
    assert a !! (b - a);
  }
}
