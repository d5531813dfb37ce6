/** Matrices stored row after row in one array, as all the C code stores them. */
module RowMajor {

  /** `i * n`: where row `i` starts when rows have length `n`. */
  function Base(i: nat, n: nat): nat { i * n }

  lemma BaseStep(i: nat, n: nat)
    ensures Base(i + 1, n) == Base(i, n) + n && Base(0, n) == 0
  {
  }

  lemma BaseBefore(i: nat, j: nat, n: nat)
    requires i < j
    ensures Base(i, n) + n <= Base(j, n)
  {
    assert (j - i - 1) * n >= 0;
  }

  lemma RowsApart(i: nat, j: nat, m: nat, n: nat)
    requires i < m && j < m && i != j
    ensures Base(i, n) + n <= Base(j, n) || Base(j, n) + n <= Base(i, n)
    ensures Base(i, n) + n <= Base(m, n) && Base(j, n) + n <= Base(m, n)
  {
    BaseBefore(i, m, n);
    BaseBefore(j, m, n);
    if i < j { BaseBefore(i, j, n); } else { BaseBefore(j, i, n); }
  }

  /** Row `i` of the `m` rows of length `n` stored in `s`. */
  function RowOf<T>(s: seq<T>, m: nat, n: nat, i: nat): (row: seq<T>)
    requires |s| == Base(m, n) && i < m
    ensures Base(i, n) + n <= |s| && row == s[Base(i, n)..Base(i, n) + n] && |row| == n
  {
    BaseBefore(i, m, n);
    s[Base(i, n)..Base(i, n) + n]
  }

  /** The `m` rows of length `n` that the array contents `s` stand for. */
  function Rows<T>(s: seq<T>, m: nat, n: nat): (rows: seq<seq<T>>)
    requires |s| == Base(m, n)
    ensures |rows| == m && forall i: nat :: i < m ==> rows[i] == RowOf(s, m, n, i)
  {
    seq(m, i requires 0 <= i < m => RowOf(s, m, n, i))
  }

  /** Changing one stretch of the array changes one row. */
  lemma RowsUpdate<T>(s: seq<T>, t: seq<T>, m: nat, n: nat, i: nat)
    requires |s| == |t| == Base(m, n) && i < m
    requires forall p :: 0 <= p < |s| && !(Base(i, n) <= p < Base(i, n) + n) ==> t[p] == s[p]
    ensures Rows(t, m, n) == Rows(s, m, n)[i := RowOf(t, m, n, i)]
  {
    hide Base;
    forall j: nat | j < m && j != i ensures RowOf(t, m, n, j) == RowOf(s, m, n, j) {
      RowsApart(i, j, m, n);
    }
  }

  /** `a[i * n + j]`. */
  function At<T>(a: array<T>, m: nat, n: nat, i: nat, j: nat): (v: T)
    requires a.Length == Base(m, n) && i < m && j < n
    reads a
    ensures v == Rows(a[..], m, n)[i][j]
  {
    BaseBefore(i, m, n);
    assert RowOf(a[..], m, n, i)[j] == a[Base(i, n) + j];
    a[Base(i, n) + j]
  }

  /** Write at index `at`, which is row `r`, column `c`. */
  method Put<T>(a: array<T>, ghost m: nat, ghost n: nat, ghost r: nat, ghost c: nat, at: nat, v: T)
    requires a.Length == Base(m, n) && r < m && c < n && at == Base(r, n) + c
    modifies a
    ensures Rows(a[..], m, n) == old(Rows(a[..], m, n))[r := old(Rows(a[..], m, n)[r])[c := v]]
  {
    hide Base;
    ghost var was := a[..];
    BaseBefore(r, m, n);
    a[at] := v;
    RowsUpdate(was, a[..], m, n, r);
    assert RowOf(a[..], m, n, r) == RowOf(was, m, n, r)[c := v];
  }
}
