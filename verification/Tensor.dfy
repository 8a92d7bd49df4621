/** Byte sizes of dense tensors (tensor/tensor.c, tensor/dtype.c). */
module Tensor {
  import opened Mem

  const DTYPE_COUNT: nat := 9
  const MAX_RANK: nat := 6

  /** `k_pai_dtype_info[dtype].size`; 0 for an unknown dtype. */
  function DtypeSize(dtype: nat): nat {
    if dtype >= DTYPE_COUNT then 0 else [4, 2, 2, 4, 4, 2, 2, 1, 1][dtype]
  }

  function Product(s: seq<nat>): nat {
    if s == [] then 1 else Product(s[..|s| - 1]) * s[|s| - 1]
  }

  /** The exact byte size, where it is defined and fits 64 bits. */
  ghost predicate HasSize(dtype: nat, shape: seq<U64>) {
    && 0 < |shape| <= MAX_RANK
    && DtypeSize(dtype) > 0
    && (forall i :: 0 <= i < |shape| ==> shape[i] > 0)
    && Product(shape) * DtypeSize(dtype) <= U64_MAX
  }

  /** A stored byte size that is the exact one. */
  ghost predicate SizeOk(dtype: nat, shape: seq<U64>, size: nat) {
    HasSize(dtype, shape) && size == Product(shape) * DtypeSize(dtype)
  }

  lemma {:induction false} ProductGrows(s: seq<nat>, k: nat)
    requires k <= |s| && forall i :: 0 <= i < |s| ==> s[i] > 0
    ensures 0 < Product(s[..k]) <= Product(s)
    decreases |s| - k
  {
    if k == |s| {
      assert s[..k] == s;
      ProductPositive(s);
    } else {
      ProductGrows(s, k + 1);
      ProductPositive(s[..k]);
      assert s[..k + 1][..k] == s[..k];
      MulMonotone(1, s[k], Product(s[..k]));
    }
  }

  lemma {:induction false} ProductPositive(s: seq<nat>)
    requires forall i :: 0 <= i < |s| ==> s[i] > 0
    ensures Product(s) > 0
  {
    if s != [] {
      ProductPositive(s[..|s| - 1]);
      MulMonotone(1, Product(s[..|s| - 1]), s[|s| - 1]);
    }
  }

  /** The division test `n > UINT64_MAX / d` is the exact overflow test. */
  lemma DivTest(n: nat, d: nat)
    requires d > 0
    ensures n > U64_MAX / d <==> n * d > U64_MAX
  {
    var q, r := U64_MAX / d, U64_MAX % d;
    assert U64_MAX == q * d + r;
    if n > q {
      MulMonotone(q + 1, n, d);
    } else {
      MulMonotone(n, q, d);
    }
  }

  /** `pai_tensor_contiguous_size`: rejects exactly the shapes without a 64-bit size. */
  method ContiguousSize(dtype: nat, shape: seq<U64>) returns (ok: bool, bytes: U64)
    ensures ok <==> HasSize(dtype, shape)
    ensures ok ==> bytes == Product(shape) * DtypeSize(dtype) && bytes > 0
  {
    bytes := 0;
    if |shape| == 0 || |shape| > MAX_RANK || DtypeSize(dtype) == 0 {
      return false, 0;
    }
    var n: U64 := 1;
    for i := 0 to |shape|
      invariant n == Product(shape[..i])
      invariant forall k :: 0 <= k < i ==> shape[k] > 0
    {
      assert shape[..i + 1][..i] == shape[..i];
      if shape[i] == 0 {
        return false, 0;
      }
      DivTest(n, shape[i]);
      if n > U64_MAX / shape[i] {
        TooBig(dtype, shape, i + 1);
        return false, 0;
      }
      n := n * shape[i];
    }
    assert shape[..|shape|] == shape;
    DivTest(n, DtypeSize(dtype));
    if n > U64_MAX / DtypeSize(dtype) {
      return false, 0;
    }
    ProductPositive(shape);
    MulMonotone(1, n, DtypeSize(dtype));
    return true, n * DtypeSize(dtype);
  }

  lemma TooBig(dtype: nat, shape: seq<U64>, k: nat)
    requires k <= |shape| && DtypeSize(dtype) > 0 && Product(shape[..k]) > U64_MAX
    ensures !HasSize(dtype, shape)
  {
    if HasSize(dtype, shape) {
      ProductGrows(shape, k);
      MulMonotone(1, DtypeSize(dtype), Product(shape));
    }
  }
}
