/** `jerasure_invertible_matrix`: the first pass of the elimination alone, as a test. */
module JerasureInvertible {
  import opened Bits
  import opened Galois
  import opened LinearAlgebra
  import opened RowMajor
  import opened RowOperations
  import opened Elimination
  import opened JerasureInvert

  /** Only the zero vector is sent to zero by a triangular matrix with ones on its diagonal. */
  lemma {:induction false} TriangularKernel(F: Field, mat: seq<Row>, x: Row, n: nat, j: nat)
    requires F.w >= 1 && Matrix(F, mat, n, n) && Triangular(mat, n, n) && Vec(F, x, n) && Kills(F, mat, x, n) && j <= n
    ensures forall l :: j <= l < n ==> x[l] == 0
    decreases n - j
  {
    if j < n {
      TriangularKernel(F, mat, x, n, j + 1);
      var unit := seq(n, l => if l == j then 1 else 0);
      DotUnit(F, unit, x, j, n);
      DotSameProducts(F, mat[j], unit, x, n);
    }
  }

  lemma {:induction false} DotSameProducts(F: Field, a: Row, b: Row, x: Row, n: nat)
    requires F.w >= 1 && n <= |a| && n <= |b| && n <= |x|
    requires forall l :: 0 <= l < n ==> a[l] == b[l] || x[l] == 0
    ensures Dot(F, a, x, n) == Dot(F, b, x, n)
  {
    if n > 0 {
      DotSameProducts(F, a, b, x, n - 1);
      MulZeroRight(F, a[n - 1]);
      MulZeroRight(F, b[n - 1]);
    }
  }

  lemma TriangularNotSingular(F: Field, mat: seq<Row>, inv: seq<Row>, orig: seq<Row>, n: nat)
    requires F.w >= 1 && Reducing(F, mat, inv, orig, n, n)
    ensures !Singular(F, orig, n)
  {
    if Singular(F, orig, n) {
      var x, p :| Vec(F, x, n) && Kills(F, orig, x, n) && 0 <= p < n && x[p] != 0;
      KernelTransfers(F, mat, inv, orig, x, n);
      TriangularKernel(F, mat, x, n, 0);
    }
  }

  lemma KernelTransfers(F: Field, mat: seq<Row>, inv: seq<Row>, orig: seq<Row>, x: Row, n: nat)
    requires F.w >= 1 && Tracks(F, mat, inv, orig, n) && Vec(F, x, n) && Kills(F, orig, x, n)
    ensures Kills(F, mat, x, n)
  {
    assert RowsAgree(F, mat, inv, orig, x, n, n);
    forall i | 0 <= i < n ensures Dot(F, mat[i], x, n) == 0 {
      assert RowAgrees(F, mat[i], inv[i], orig, x, n);
      DotZero(F, inv[i], Apply(F, orig, x), n);
    }
  }

  method FindPivotRow(F: Field, mat: array<nat>, n: nat, i: nat, ghost inv: seq<Row>, ghost orig: seq<Row>)
    returns (found: bool, ghost inv': seq<Row>)
    requires F.w >= 1 && mat.Length == Base(n, n) && i < n
    requires Reducing(F, Rows(mat[..], n, n), inv, orig, n, i)
    modifies mat
    ensures found ==> Reducing(F, Rows(mat[..], n, n), inv', orig, n, i) && Rows(mat[..], n, n)[i][i] != 0
    ensures !found ==> Singular(F, orig, n)
  {
    hide *;
    ghost var M := Rows(mat[..], n, n);
    InverseRows(F, M, inv, orig, n, i);
    found, inv' := true, inv;
    if At(mat, n, n, i, i) == 0 {
      var j := i + 1;
      while j < n && At(mat, n, n, j, i) == 0
        invariant i + 1 <= j <= n && forall l :: i <= l < j ==> M[l][i] == 0
      {
        j := j + 1;
      }
      if j == n {
        StuckStep(F, M, inv, orig, n, i);
        return false, inv;
      }
      SwapStep(F, M, inv, orig, n, i, j);
      SwapRows(mat, n, n, i, j);
      inv' := Swapped(inv, i, j);
    }
  }

  lemma InverseRows(F: Field, mat: seq<Row>, inv: seq<Row>, orig: seq<Row>, n: nat, i: nat)
    requires F.w >= 1 && Reducing(F, mat, inv, orig, n, i)
    ensures |inv| == n && forall j :: 0 <= j < n ==> |inv[j]| == n && Elements(F, mat[j])
  {
    forall j | 0 <= j < n ensures |inv[j]| == n && Elements(F, mat[j]) {
      assert Vec(F, inv[j], n) && Vec(F, mat[j], n);
    }
  }

  method ClearBelowPivot(F: Field, mat: array<nat>, n: nat, i: nat, ghost inv: seq<Row>, ghost orig: seq<Row>)
    returns (ghost inv': seq<Row>)
    requires F.w >= 1 && mat.Length == Base(n, n) && i < n
    requires Reducing(F, Rows(mat[..], n, n), inv, orig, n, i) && Rows(mat[..], n, n)[i][i] == 1
    modifies mat
    ensures Reducing(F, Rows(mat[..], n, n), inv', orig, n, i + 1)
  {
    inv' := inv;
    hide Base, Reducing, Xor, Pow2, Elements;
    var j := i + 1;
    while j != n
      invariant i + 1 <= j <= n
      invariant Reducing(F, Rows(mat[..], n, n), inv', orig, n, i) && Rows(mat[..], n, n)[i][i] == 1
      invariant forall l :: i + 1 <= l < j ==> Rows(mat[..], n, n)[l][i] == 0
    {
      ghost var M := Rows(mat[..], n, n);
      var tmp := At(mat, n, n, j, i);
      if tmp != 0 {
        InverseRows(F, M, inv', orig, n, i);
        ClearStep(F, M, inv', orig, n, i, j);
        AddRow(F, mat, n, n, j, i, tmp);
        assert Rows(mat[..], n, n) == Added(F, M, j, i, tmp);
        inv' := Added(F, inv', j, i, tmp);
      }
      j := j + 1;
    }
    ColumnDone(F, Rows(mat[..], n, n), inv', orig, n, i);
  }

  method NormalizeRow(F: Field, mat: array<nat>, n: nat, i: nat, ghost inv: seq<Row>, ghost orig: seq<Row>)
    returns (ghost inv': seq<Row>)
    requires IsField(F) && mat.Length == Base(n, n) && i < n
    requires Reducing(F, Rows(mat[..], n, n), inv, orig, n, i) && Rows(mat[..], n, n)[i][i] != 0
    modifies mat
    ensures Reducing(F, Rows(mat[..], n, n), inv', orig, n, i) && Rows(mat[..], n, n)[i][i] == 1
  {
    ghost var M := Rows(mat[..], n, n);
    InverseRows(F, M, inv, orig, n, i);
    inv' := inv;
    var tmp := At(mat, n, n, i, i);
    if tmp != 1 {
      var inverse := Div(F, 1, tmp);
      ScaleStep(F, M, inv, orig, n, i, inverse);
      ScaleRow(F, mat, n, n, i, inverse);
      assert Rows(mat[..], n, n) == Scaled(F, M, i, inverse);
      inv' := Scaled(F, inv, i, inverse);
    }
  }

  /** Returns 1 exactly when the matrix is not singular. */
  method InvertibleMatrix(F: Field, mat: array<nat>, n: nat) returns (r: int)
    requires IsField(F) && mat.Length == Base(n, n) && Matrix(F, Rows(mat[..], n, n), n, n)
    modifies mat
    ensures r == 0 || r == 1
    ensures r == 1 <==> !Singular(F, old(Rows(mat[..], n, n)), n)
  {
    ghost var orig := Rows(mat[..], n, n);
    ghost var inv: seq<Row> := seq(n, i => seq(n, j => if i == j then 1 else 0));
    Start(F, orig, inv, n);
    var i := 0;
    var found;
    while i < n
      invariant 0 <= i <= n && Reducing(F, Rows(mat[..], n, n), inv, orig, n, i)
    {
      hide Reducing, Singular, Base, Rows, Xor, Pow2, Matrix;
      found, inv := FindPivotRow(F, mat, n, i, inv, orig);
      if !found { return 0; }
      inv := NormalizeRow(F, mat, n, i, inv, orig);
      inv := ClearBelowPivot(F, mat, n, i, inv, orig);
      i := i + 1;
    }
    TriangularNotSingular(F, Rows(mat[..], n, n), inv, orig, n);
    r := 1;
  }
}
