/** The inner loops of the elimination routines: one row operation each. */
module RowOperations {
  import opened Bits
  import opened Galois
  import opened LinearAlgebra
  import opened RowMajor

  /** `b + t * a`, entry by entry. */
  function RowSum(F: Field, b: Row, t: nat, a: Row): (c: Row)
    requires F.w >= 1 && |a| == |b|
    ensures |c| == |b| && forall j :: 0 <= j < |b| ==> c[j] == Xor(b[j], F.Mul(t, a[j]))
  {
    seq(|b|, j requires 0 <= j < |b| => Xor(b[j], F.Mul(t, a[j])))
  }

  function RowScale(F: Field, t: nat, a: Row): (c: Row)
    requires F.w >= 1
    ensures |c| == |a| && forall j :: 0 <= j < |a| ==> c[j] == F.Mul(a[j], t)
  {
    seq(|a|, j requires 0 <= j < |a| => F.Mul(a[j], t))
  }

  function Swapped<T>(M: seq<T>, i: nat, j: nat): seq<T>
    requires i < |M| && j < |M|
  {
    M[i := M[j]][j := M[i]]
  }

  /** The stretches of length `n` at `p` and `q` do not overlap. */
  predicate Apart(p: nat, q: nat, n: nat, len: nat) {
    p + n <= len && q + n <= len && (p + n <= q || q + n <= p)
  }

  method SwapRanges<T>(a: array<T>, p: nat, q: nat, n: nat)
    requires Apart(p, q, n, a.Length)
    modifies a
    ensures a[p..p + n] == old(a[q..q + n]) && a[q..q + n] == old(a[p..p + n])
    ensures forall r :: 0 <= r < a.Length && !(p <= r < p + n) && !(q <= r < q + n) ==> a[r] == old(a[r])
  {
    var k := 0;
    while k < n
      invariant 0 <= k <= n
      invariant forall r :: p <= r < p + k ==> a[r] == old(a[r - p + q])
      invariant forall r :: q <= r < q + k ==> a[r] == old(a[r - q + p])
      invariant forall r :: 0 <= r < a.Length && !(p <= r < p + k) && !(q <= r < q + k) ==> a[r] == old(a[r])
    {
      var tmp := a[p + k];
      a[p + k] := a[q + k];
      a[q + k] := tmp;
      k := k + 1;
    }
  }

  lemma SwappedRows<T>(s: seq<T>, t: seq<T>, m: nat, n: nat, i: nat, j: nat)
    requires |s| == |t| == Base(m, n) && i < m && j < m && i != j
    requires RowOf(t, m, n, i) == RowOf(s, m, n, j) && RowOf(t, m, n, j) == RowOf(s, m, n, i)
    requires forall r :: 0 <= r < |s| && !(Base(i, n) <= r < Base(i, n) + n) && !(Base(j, n) <= r < Base(j, n) + n) ==> t[r] == s[r]
    ensures Rows(t, m, n) == Swapped(Rows(s, m, n), i, j)
  {
    hide Base;
    forall r: nat | r < m && r != i && r != j ensures RowOf(t, m, n, r) == RowOf(s, m, n, r) {
      RowsApart(r, i, m, n);
      RowsApart(r, j, m, n);
    }
  }

  /** Exchange rows `i` and `j`. */
  method SwapRows<T>(a: array<T>, m: nat, n: nat, i: nat, j: nat)
    requires a.Length == Base(m, n) && i < m && j < m && i != j
    modifies a
    ensures Rows(a[..], m, n) == Swapped(old(Rows(a[..], m, n)), i, j)
  {
    hide Base, Swapped, Rows;
    ghost var s := a[..];
    var p, q := Base(i, n), Base(j, n);
    RowsApart(i, j, m, n);
    SwapRanges(a, p, q, n);
    SwappedRows(s, a[..], m, n, i, j);
  }

  /** Multiply row `i` by `t`. */
  method ScaleRow(F: Field, a: array<nat>, m: nat, n: nat, i: nat, t: nat)
    requires F.w >= 1 && a.Length == Base(m, n) && i < m
    modifies a
    ensures Rows(a[..], m, n) == old(Rows(a[..], m, n))[i := RowScale(F, t, old(Rows(a[..], m, n)[i]))]
  {
    hide Base;
    ghost var s := a[..];
    var p := Base(i, n);
    BaseBefore(i, m, n);
    var j := 0;
    while j < n
      invariant 0 <= j <= n
      invariant forall r :: p <= r < p + j ==> a[r] == F.Mul(s[r], t)
      invariant forall r :: 0 <= r < a.Length && !(p <= r < p + j) ==> a[r] == s[r]
    {
      a[p + j] := F.Mul(a[p + j], t);
      j := j + 1;
    }
    RowsUpdate(s, a[..], m, n, i);
    assert a[..][p..p + n] == RowScale(F, t, s[p..p + n]);
  }

  method AddRange(F: Field, a: array<nat>, p: nat, q: nat, n: nat, t: nat)
    requires F.w >= 1 && Apart(p, q, n, a.Length)
    modifies a
    ensures a[p..p + n] == RowSum(F, old(a[p..p + n]), t, old(a[q..q + n]))
    ensures forall r :: 0 <= r < a.Length && !(p <= r < p + n) ==> a[r] == old(a[r])
  {
    hide Xor, Pow2, Field.Mul;
    var x := 0;
    while x < n
      invariant 0 <= x <= n
      invariant forall r :: p <= r < p + x ==> a[r] == Xor(old(a[r]), F.Mul(t, old(a[r - p + q])))
      invariant forall r :: 0 <= r < a.Length && !(p <= r < p + x) ==> a[r] == old(a[r])
    {
      if t == 1 {
        MulOneLeft(F, a[q + x]);
        a[p + x] := Xor(a[p + x], a[q + x]);
      } else {
        a[p + x] := Xor(a[p + x], F.Mul(t, a[q + x]));
      }
      x := x + 1;
    }
  }

  /** Add `t` times row `src` to row `dst`. */
  method AddRow(F: Field, a: array<nat>, m: nat, n: nat, dst: nat, src: nat, t: nat)
    requires F.w >= 1 && a.Length == Base(m, n) && dst < m && src < m && dst != src
    modifies a
    ensures Rows(a[..], m, n)
         == old(Rows(a[..], m, n))[dst := RowSum(F, old(Rows(a[..], m, n)[dst]), t, old(Rows(a[..], m, n)[src]))]
  {
    hide Base;
    ghost var s := a[..];
    RowsApart(dst, src, m, n);
    AddRange(F, a, Base(dst, n), Base(src, n), n, t);
    RowsUpdate(s, a[..], m, n, dst);
  }

  ghost predicate IsUnit(a: Row, p: nat) {
    forall c :: 0 <= c < |a| ==> a[c] == if c == p then 1 else 0
  }

  /** The identity matrix, written with one running index. */
  method WriteIdentity(inv: array<nat>, n: nat)
    requires inv.Length == Base(n, n)
    modifies inv
    ensures forall r :: 0 <= r < n ==> IsUnit(Rows(inv[..], n, n)[r], r)
  {
    hide Base;
    var k: nat, i: nat := 0, 0;
    BaseStep(0, n);
    while i < n
      invariant i <= n && k == Base(i, n)
      invariant forall r :: 0 <= r < i ==> IsUnit(Rows(inv[..], n, n)[r], r)
    {
      ghost var s, p := inv[..], k;
      BaseBefore(i, n, n);
      BaseStep(i, n);
      var j: nat := 0;
      while j < n
        invariant j <= n && k == p + j
        invariant forall r :: p <= r < p + j ==> inv[r] == if r - p == i then 1 else 0
        invariant forall r :: 0 <= r < inv.Length && !(p <= r < p + j) ==> inv[r] == s[r]
      {
        inv[k] := if i == j then 1 else 0;
        k := k + 1;
        j := j + 1;
      }
      RowsUpdate(s, inv[..], n, n, i);
      i := i + 1;
    }
  }
}
