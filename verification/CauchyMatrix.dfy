/** `cauchy_original_coding_matrix` and `cauchy_improve_coding_matrix`: the coding matrix is
    filled with 1 / (i xor (m + j)), its columns are rescaled so that the first row is all ones,
    and every other row is rescaled to the variant with the fewest ones in its bit matrix. */
module CauchyMatrix {
  import opened Bits
  import opened Galois
  import opened LinearAlgebra
  import opened RowMajor
  import opened RowOperations
  import opened Elimination
  import opened CauchyMDS

  /** The all-ones vector: no rescaling yet. */
  function AllOnes(n: nat): (v: Row)
    ensures |v| == n && forall j :: 0 <= j < n ==> v[j] == 1
  {
    seq(n, _ => 1)
  }

  lemma OriginalEntry(F: Field, i: nat, j: nat, m: nat, k: nat)
    requires IsField(F) && i < m && j < k && k + m <= Pow2(F.w)
    ensures F.El(Xor(i, m + j)) && Xor(i, m + j) != 0 && F.Mul(1, 1) == 1 && F.El(1)
  {
    ElXor(F, i, m + j);
    XorZero(i, m + j);
    MulOneLeft(F, 1);
    OneEl(F);
  }

  /** Entry (i, j) is 1 / (i xor (m + j)). */
  ghost predicate Reciprocals(F: Field, C: seq<Row>, m: nat, k: nat)
    requires F.w >= 1
  {
    && |C| == m
    && forall i: nat :: i < m ==> |C[i]| == k && forall j: nat :: j < k ==> F.El(C[i][j]) && F.Mul(Xor(i, m + j), C[i][j]) == 1
  }

  lemma UnscaledIsReciprocal(F: Field, C: seq<Row>, m: nat, k: nat)
    requires F.w >= 1 && ScaledCauchy(F, C, m, k, AllOnes(m), AllOnes(k))
    ensures Reciprocals(F, C, m, k)
  {
    forall i: nat, j: nat | i < m && j < k ensures F.Mul(Xor(i, m + j), C[i][j]) == 1 {
      assert CauchyRow(F, C[i], i, m, k, AllOnes(m)[i], AllOnes(k));
      OneEl(F);
      MulOneLeft(F, 1);
    }
    forall i: nat | i < m ensures Vec(F, C[i], k) { assert CauchyRow(F, C[i], i, m, k, AllOnes(m)[i], AllOnes(k)); }
  }

  method OriginalCodingMatrix(F: Field, k: nat, m: nat) returns (matrix: array?<nat>)
    requires IsField(F)
    requires F.w >= 31 ==> k + m <= Pow2(F.w)
    ensures matrix == null <==> F.w < 31 && k + m > Pow2(F.w)
    ensures matrix != null ==> fresh(matrix) && matrix.Length == Base(m, k)
    ensures matrix != null ==> Reciprocals(F, Rows(matrix[..], m, k), m, k)
    ensures matrix != null ==> ScaledCauchy(F, Rows(matrix[..], m, k), m, k, AllOnes(m), AllOnes(k))
  {
    if F.w < 31 && k + m > Pow2(F.w) { return null; }
    var a := new nat[Base(m, k)];
    var index: nat, i: nat := 0, 0;
    BaseStep(0, k);
    while i < m
      invariant i <= m && index == Base(i, k)
      invariant forall r: nat :: r < i ==> CauchyRow(F, Rows(a[..], m, k)[r], r, m, k, 1, AllOnes(k))
    {
      ghost var s := a[..];
      BaseBefore(i, m, k);
      BaseStep(i, k);
      index := FillRow(F, a, i, m, k, index);
      RowsUpdate(s, a[..], m, k, i);
      i := i + 1;
    }
    OriginalIsCauchy(F, Rows(a[..], m, k), m, k);
    UnscaledIsReciprocal(F, Rows(a[..], m, k), m, k);
    matrix := a;
  }

  /** One row of the original matrix. */
  method FillRow(F: Field, a: array<nat>, i: nat, m: nat, k: nat, start: nat) returns (index: nat)
    requires IsField(F) && i < m && k + m <= Pow2(F.w) && start + k <= a.Length
    modifies a
    ensures index == start + k && CauchyRow(F, a[start..start + k], i, m, k, 1, AllOnes(k))
    ensures forall p :: 0 <= p < a.Length && !(start <= p < start + k) ==> a[p] == old(a[p])
  {
    hide Xor, Field.Mul, HasInverse;
    index := start;
    var j: nat := 0;
    while j < k
      invariant j <= k && index == start + j
      invariant forall p :: start <= p < index ==> F.El(a[p]) && F.Mul(Xor(i, m + (p - start)), a[p]) == 1
      invariant forall p :: 0 <= p < a.Length && !(start <= p < index) ==> a[p] == old(a[p])
    {
      OriginalEntry(F, i, j, m, k);
      a[index] := Div(F, 1, Xor(i, m + j));
      index := index + 1;
      j := j + 1;
    }
    MulOneLeft(F, 1);
  }

  lemma OriginalIsCauchy(F: Field, C: seq<Row>, m: nat, k: nat)
    requires F.w >= 1 && k + m <= Pow2(F.w) && |C| == m
    requires forall r: nat :: r < m ==> CauchyRow(F, C[r], r, m, k, 1, AllOnes(k))
    ensures ScaledCauchy(F, C, m, k, AllOnes(m), AllOnes(k))
  {
    OneEl(F);
  }

  // ----- rescaling keeps the matrix a Cauchy matrix

  /** `C` with column `j` multiplied by `t`. */
  ghost function ColumnScaled(F: Field, C: seq<Row>, j: nat, t: nat): (D: seq<Row>)
    requires F.w >= 1 && forall i :: 0 <= i < |C| ==> j < |C[i]|
    ensures |D| == |C| && forall i :: 0 <= i < |C| ==> D[i] == C[i][j := F.Mul(C[i][j], t)]
  {
    seq(|C|, i requires 0 <= i < |C| => C[i][j := F.Mul(C[i][j], t)])
  }

  lemma ColumnScaledRow(F: Field, row: Row, i: nat, m: nat, k: nat, ai: nat, b: Row, j: nat, t: nat)
    requires F.w >= 1 && CauchyRow(F, row, i, m, k, ai, b) && j < k && F.El(t) && F.El(ai) && Elements(F, b)
    requires F.El(i) && F.El(m + j)
    ensures CauchyRow(F, row[j := F.Mul(row[j], t)], i, m, k, ai, b[j := F.Mul(b[j], t)])
  {
    MulEl(F, row[j], t);
    ElXor(F, i, m + j);
    MulAssoc(F, Xor(i, m + j), row[j], t);
    MulAssoc(F, ai, b[j], t);
  }

  lemma ColumnScaledCauchy(F: Field, C: seq<Row>, m: nat, k: nat, a: Row, b: Row, j: nat, t: nat)
    requires IsField(F) && ScaledCauchy(F, C, m, k, a, b) && Matrix(F, C, m, k) && j < k && F.El(t) && t != 0
    ensures ScaledCauchy(F, ColumnScaled(F, C, j, t), m, k, a, b[j := F.Mul(b[j], t)])
  {
    assert F.El(b[j]) && b[j] != 0;
    MulEl(F, b[j], t);
    MulNonzero(F, b[j], t);
    var b' := b[j := F.Mul(b[j], t)];
    assert Nonzero(F, b');
    forall i: nat | i < m ensures CauchyRow(F, ColumnScaled(F, C, j, t)[i], i, m, k, a[i], b') {
      assert CauchyRow(F, C[i], i, m, k, a[i], b);
      assert F.El(i) && F.El(m + j) && F.El(a[i]);
      ColumnScaledRow(F, C[i], i, m, k, a[i], b, j, t);
    }
  }

  lemma ScaledCauchyRow(F: Field, row: Row, i: nat, m: nat, k: nat, ai: nat, b: Row, t: nat)
    requires F.w >= 1 && CauchyRow(F, row, i, m, k, ai, b) && F.El(t) && F.El(ai) && Elements(F, b) && k + m <= Pow2(F.w)
    requires i < m
    ensures CauchyRow(F, RowScale(F, t, row), i, m, k, F.Mul(ai, t), b)
  {
    RowScaleElements(F, t, row);
    forall j: nat | j < k ensures F.Mul(Xor(i, m + j), F.Mul(row[j], t)) == F.Mul(F.Mul(ai, t), b[j]) {
      ElXor(F, i, m + j);
      RowScaledEntry(F, Xor(i, m + j), row[j], ai, b[j], t);
    }
  }

  lemma RowScaledEntry(F: Field, d: nat, c: nat, a: nat, b: nat, t: nat)
    requires F.w >= 1 && F.El(d) && F.El(c) && F.El(a) && F.El(b) && F.El(t) && F.Mul(d, c) == F.Mul(a, b)
    ensures F.Mul(d, F.Mul(c, t)) == F.Mul(F.Mul(a, t), b)
  {
    hide *;
    MulAssoc(F, d, c, t);
    MulAssoc(F, a, b, t);
    MulComm(F, b, t);
    MulAssoc(F, a, t, b);
  }

  lemma RowScaledCauchy(F: Field, C: seq<Row>, m: nat, k: nat, a: Row, b: Row, i: nat, t: nat)
    requires IsField(F) && ScaledCauchy(F, C, m, k, a, b) && i < m && F.El(t) && t != 0
    ensures ScaledCauchy(F, C[i := RowScale(F, t, C[i])], m, k, a[i := F.Mul(a[i], t)], b)
  {
    assert F.El(a[i]) && a[i] != 0 && CauchyRow(F, C[i], i, m, k, a[i], b);
    MulEl(F, a[i], t);
    MulNonzero(F, a[i], t);
    ScaledCauchyRow(F, C[i], i, m, k, a[i], b, t);
    hide CauchyRow;
  }
}
