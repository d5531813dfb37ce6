/** `memcpy` and `memset` on whole rows and on stretches of one row of a bit matrix. */
module BitBlocks {
  import opened RowMajor
  import opened BitAlgebra
  import opened BitDecoding

  /** `memcpy` of `cnt` rows. */
  method CopyRows(dst: array<bool>, ghost dm: nat, dr: nat, src: array<bool>, ghost sm: nat, sr: nat, cnt: nat, n: nat)
    requires dst != src && dst.Length == Base(dm, n) && src.Length == Base(sm, n) && dr + cnt <= dm && sr + cnt <= sm
    modifies dst
    ensures forall r :: 0 <= r < dm && !(dr <= r < dr + cnt) ==> Rows(dst[..], dm, n)[r] == old(Rows(dst[..], dm, n))[r]
    ensures forall r :: dr <= r < dr + cnt ==> Rows(dst[..], dm, n)[r] == Rows(src[..], sm, n)[sr + (r - dr)]
  {
    hide Base, Rows;
    ghost var s := dst[..];
    var p, q, len := Base(dr, n), Base(sr, n), Base(cnt, n);
    BaseAdd(dr, cnt, dm, n);
    BaseAdd(sr, cnt, sm, n);
    var t: nat := 0;
    while t < len
      invariant t <= len
      invariant forall r :: p <= r < p + t ==> dst[r] == src[r - p + q]
      invariant forall r :: 0 <= r < dst.Length && !(p <= r < p + t) ==> dst[r] == s[r]
    {
      dst[p + t] := src[q + t];
      t := t + 1;
    }
    CopiedRows(s, dst[..], dm, dr, src[..], sm, sr, cnt, n);
  }

  lemma BaseAdd(r: nat, cnt: nat, m: nat, n: nat)
    requires r + cnt <= m
    ensures Base(r + cnt, n) == Base(r, n) + Base(cnt, n) <= Base(m, n)
  {
    assert (r + cnt) * n == r * n + cnt * n;
    if r + cnt < m { BaseBefore(r + cnt, m, n); }
  }

  lemma CopiedRows(s: seq<bool>, t: seq<bool>, dm: nat, dr: nat, u: seq<bool>, sm: nat, sr: nat, cnt: nat, n: nat)
    requires |s| == |t| == Base(dm, n) && |u| == Base(sm, n) && dr + cnt <= dm && sr + cnt <= sm
    requires Base(dr, n) + Base(cnt, n) <= |s| && Base(sr, n) + Base(cnt, n) <= |u|
    requires forall r :: Base(dr, n) <= r < Base(dr, n) + Base(cnt, n) ==> t[r] == u[r - Base(dr, n) + Base(sr, n)]
    requires forall r :: 0 <= r < |s| && !(Base(dr, n) <= r < Base(dr, n) + Base(cnt, n)) ==> t[r] == s[r]
    ensures forall r :: 0 <= r < dm && !(dr <= r < dr + cnt) ==> Rows(t, dm, n)[r] == Rows(s, dm, n)[r]
    ensures forall r :: dr <= r < dr + cnt ==> Rows(t, dm, n)[r] == Rows(u, sm, n)[sr + (r - dr)]
  {
    hide Base;
    forall r: nat | r < dm && !(dr <= r < dr + cnt) ensures RowOf(t, dm, n, r) == RowOf(s, dm, n, r) {
      BaseBefore(r, dm, n);
      BaseAdd(dr, cnt, dm, n);
      if r < dr { BaseBefore(r, dr, n); }
      if dr + cnt < r { BaseBefore(dr + cnt, r, n); }
    }
    forall r: nat | dr <= r < dr + cnt ensures RowOf(t, dm, n, r) == RowOf(u, sm, n, sr + (r - dr)) {
      BaseAdd(dr, r - dr, dm, n);
      BaseAdd(sr, r - dr, sm, n);
      BaseBefore(r - dr, cnt, n);
    }
  }

  /** Row `row` with the `cnt` bits from `c` on cleared. */
  function Cleared(row: BitRow, c: nat, cnt: nat): (r: BitRow)
    ensures |r| == |row| && forall j :: 0 <= j < |row| ==> r[j] == (row[j] && !(c <= j < c + cnt))
  {
    seq(|row|, j requires 0 <= j < |row| => row[j] && !(c <= j < c + cnt))
  }

  /** `memset(..., 0, ...)` of a stretch of row `r`. */
  method ClearRange(a: array<bool>, ghost m: nat, n: nat, r: nat, c: nat, cnt: nat)
    requires a.Length == Base(m, n) && r < m && c + cnt <= n
    modifies a
    ensures Rows(a[..], m, n) == old(Rows(a[..], m, n))[r := Cleared(old(Rows(a[..], m, n)[r]), c, cnt)]
  {
    hide Base, Rows;
    ghost var s := a[..];
    BaseBefore(r, m, n);
    var p := Base(r, n) + c;
    var t: nat := 0;
    while t < cnt
      invariant t <= cnt
      invariant forall q :: p <= q < p + t ==> !a[q]
      invariant forall q :: 0 <= q < a.Length && !(p <= q < p + t) ==> a[q] == s[q]
    {
      a[p + t] := false;
      t := t + 1;
    }
    RowsUpdate(s, a[..], m, n, r);
    assert RowOf(a[..], m, n, r) == Cleared(RowOf(s, m, n, r), c, cnt);
  }

  /** `memset(..., 0, ...)` of `cnt` rows. */
  method ClearRows(a: array<bool>, ghost m: nat, n: nat, r0: nat, cnt: nat)
    requires a.Length == Base(m, n) && r0 + cnt <= m
    modifies a
    ensures forall r :: 0 <= r < m && !(r0 <= r < r0 + cnt) ==> Rows(a[..], m, n)[r] == old(Rows(a[..], m, n))[r]
    ensures forall r :: r0 <= r < r0 + cnt ==> Rows(a[..], m, n)[r] == Zeros(n)
  {
    hide Base, Rows, Cleared;
    ghost var s: seq<BitRow> := Rows(a[..], m, n);
    var x: nat := 0;
    while x < cnt
      invariant x <= cnt
      invariant forall r :: 0 <= r < m && !(r0 <= r < r0 + x) ==> Rows(a[..], m, n)[r] == s[r]
      invariant forall r :: r0 <= r < r0 + x ==> Rows(a[..], m, n)[r] == Zeros(n)
    {
      ClearedAll(s[r0 + x]);
      ClearRange(a, m, n, r0 + x, 0, n);
      x := x + 1;
    }
  }

  function Zeros(n: nat): (row: BitRow)
    ensures |row| == n && forall j :: 0 <= j < n ==> !row[j]
  {
    seq(n, _ => false)
  }

  lemma ClearedAll(row: BitRow)
    ensures Cleared(row, 0, |row|) == Zeros(|row|)
  {
  }

  lemma UnitFromZeros(n: nat, p: nat)
    requires p < n
    ensures Zeros(n)[p := true] == UnitBits(n, p)
  {
  }

  /** Block row `i` becomes the unit rows of device `d`: `memset` and then ones on the diagonal. */
  method UnitBlock(a: array<bool>, ghost m: nat, n: nat, w: nat, i: nat, d: nat)
    requires a.Length == Base(m, n) && Base(i, w) + w <= m && Base(d, w) + w <= n
    modifies a
    ensures forall r :: 0 <= r < m && !(Base(i, w) <= r < Base(i, w) + w) ==> Rows(a[..], m, n)[r] == old(Rows(a[..], m, n))[r]
    ensures forall r :: Base(i, w) <= r < Base(i, w) + w ==> Rows(a[..], m, n)[r] == UnitBits(n, Base(d, w) + (r - Base(i, w)))
  {
    hide Base, Rows, Zeros, UnitBits;
    ghost var s: seq<BitRow> := Rows(a[..], m, n);
    var r0, c0 := Base(i, w), Base(d, w);
    ClearRows(a, m, n, r0, w);
    var x: nat := 0;
    while x < w
      invariant x <= w
      invariant forall r :: 0 <= r < m && !(r0 <= r < r0 + w) ==> Rows(a[..], m, n)[r] == s[r]
      invariant forall r :: r0 <= r < r0 + x ==> Rows(a[..], m, n)[r] == UnitBits(n, c0 + (r - r0))
      invariant forall r :: r0 + x <= r < r0 + w ==> Rows(a[..], m, n)[r] == Zeros(n)
    {
      UnitFromZeros(n, c0 + x);
      Put(a, m, n, r0 + x, c0 + x, Base(r0 + x, n) + (c0 + x), true);
      x := x + 1;
    }
  }
}
