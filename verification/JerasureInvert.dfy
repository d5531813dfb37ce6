/** `jerasure_invert_matrix` and `jerasure_invertible_matrix`: Gaussian elimination in place,
    on a row-major array, over GF(2^w). */
module JerasureInvert {
  import opened Bits
  import opened Galois
  import opened LinearAlgebra
  import opened RowMajor
  import opened RowOperations
  import opened Elimination

  /** The two arrays hold a half-reduced system whose first `i` columns are triangular. */
  ghost predicate Reducing(F: Field, mat: seq<Row>, inv: seq<Row>, orig: seq<Row>, n: nat, i: nat)
    requires F.w >= 1
  {
    Tracks(F, mat, inv, orig, n) && Covers(F, mat, orig, n) && Triangular(mat, n, i)
  }

  lemma SwapShape(mat: seq<Row>, n: nat, i: nat, j: nat)
    requires Triangular(mat, n, i) && i < n && i <= j < n
    ensures Triangular(Swapped(mat, i, j), n, i) && Swapped(mat, i, j)[i] == mat[j]
  {
  }

  lemma ScaleShape(F: Field, mat: seq<Row>, n: nat, i: nat, t: nat)
    requires F.w >= 1 && Triangular(mat, n, i) && i < n && F.Mul(mat[i][i], t) == 1
    ensures Triangular(Scaled(F, mat, i, t), n, i) && Scaled(F, mat, i, t)[i][i] == 1
  {
    assert F.Mul(0, t) == 0;
  }

  /** Clearing the entry of row `j` below the pivot. */
  lemma AddShape(F: Field, mat: seq<Row>, n: nat, i: nat, j: nat)
    requires F.w >= 1 && Matrix(F, mat, n, n) && Triangular(mat, n, i) && i < j < n && mat[i][i] == 1
    ensures var mat' := Added(F, mat, j, i, mat[j][i]);
      && Triangular(mat', n, i) && mat'[j][i] == 0
      && forall l :: 0 <= l < n && l != j ==> mat'[l] == mat[l]
  {
    var t := mat[j][i];
    MulOneRight(F, t);
    MulZeroRight(F, t);
    XorSelf(t);
    XorUnit(0);
  }

  lemma SwapStep(F: Field, mat: seq<Row>, inv: seq<Row>, orig: seq<Row>, n: nat, i: nat, j: nat)
    requires F.w >= 1 && Reducing(F, mat, inv, orig, n, i) && i <= j < n && mat[j][i] != 0
    ensures Reducing(F, Swapped(mat, i, j), Swapped(inv, i, j), orig, n, i) && Swapped(mat, i, j)[i][i] != 0
  {
    SwapShape(mat, n, i, j);
    SwapTracks(F, mat, inv, orig, n, i, j);
    SwapCovers(F, mat, orig, n, i, j);
    hide Tracks, Covers, Triangular, Swapped, Matrix;
  }

  lemma ScaleStep(F: Field, mat: seq<Row>, inv: seq<Row>, orig: seq<Row>, n: nat, i: nat, t: nat)
    requires IsField(F) && Reducing(F, mat, inv, orig, n, i) && i < n
    requires F.El(t) && F.Mul(mat[i][i], t) == 1
    ensures Reducing(F, Scaled(F, mat, i, t), Scaled(F, inv, i, t), orig, n, i) && Scaled(F, mat, i, t)[i][i] == 1
  {
    MulZeroRight(F, mat[i][i]);
    ScaleShape(F, mat, n, i, t);
    ScaleTracks(F, mat, inv, orig, n, i, t);
    ScaleCovers(F, mat, orig, n, i, t);
    hide Tracks, Covers, Triangular, Scaled, Matrix;
  }

  lemma ClearStep(F: Field, mat: seq<Row>, inv: seq<Row>, orig: seq<Row>, n: nat, i: nat, j: nat)
    requires F.w >= 1 && Reducing(F, mat, inv, orig, n, i) && i < j < n && mat[i][i] == 1
    ensures var t := mat[j][i]; var mat' := Added(F, mat, j, i, t);
      && Reducing(F, mat', Added(F, inv, j, i, t), orig, n, i)
      && mat'[j][i] == 0 && forall l :: 0 <= l < n && l != j ==> mat'[l] == mat[l]
  {
    var t := mat[j][i];
    assert Vec(F, mat[j], n);
    AddShape(F, mat, n, i, j);
    AddTracks(F, mat, inv, orig, n, j, i, t);
    AddCovers(F, mat, orig, n, j, i, t);
    hide Tracks, Covers, Triangular, Added, Matrix;
  }

  lemma StuckStep(F: Field, mat: seq<Row>, inv: seq<Row>, orig: seq<Row>, n: nat, i: nat)
    requires F.w >= 1 && Reducing(F, mat, inv, orig, n, i) && i < n && forall l :: i <= l < n ==> mat[l][i] == 0
    ensures Singular(F, orig, n)
  {
    NoPivotSingular(F, mat, orig, n, i);
  }

  lemma ColumnDone(F: Field, mat: seq<Row>, inv: seq<Row>, orig: seq<Row>, n: nat, i: nat)
    requires F.w >= 1 && Reducing(F, mat, inv, orig, n, i) && i < n && mat[i][i] == 1
    requires forall l :: i < l < n ==> mat[l][i] == 0
    ensures Reducing(F, mat, inv, orig, n, i + 1)
  {
  }

  /** Find a row with a non-zero entry in column `i` and bring it to row `i`. */
  method FindPivot(F: Field, mat: array<nat>, inv: array<nat>, n: nat, i: nat, ghost orig: seq<Row>) returns (found: bool)
    requires F.w >= 1 && mat != inv && mat.Length == inv.Length == Base(n, n) && i < n
    requires Reducing(F, Rows(mat[..], n, n), Rows(inv[..], n, n), orig, n, i)
    modifies mat, inv
    ensures found ==> Reducing(F, Rows(mat[..], n, n), Rows(inv[..], n, n), orig, n, i) && Rows(mat[..], n, n)[i][i] != 0
    ensures !found ==> Singular(F, orig, n)
  {
    hide *;
    ghost var M, V := Rows(mat[..], n, n), Rows(inv[..], n, n);
    found := true;
    if At(mat, n, n, i, i) == 0 {
      var j := i + 1;
      while j < n && At(mat, n, n, j, i) == 0
        invariant i + 1 <= j <= n && forall l :: i <= l < j ==> M[l][i] == 0
      {
        j := j + 1;
      }
      if j == n {
        StuckStep(F, M, V, orig, n, i);
        return false;
      }
      SwapStep(F, M, V, orig, n, i, j);
      SwapRows(mat, n, n, i, j);
      SwapRows(inv, n, n, i, j);
    }
  }

  /** Multiply row `i` by the inverse of its pivot. */
  method Normalize(F: Field, mat: array<nat>, inv: array<nat>, n: nat, i: nat, ghost orig: seq<Row>)
    requires IsField(F) && mat != inv && mat.Length == inv.Length == Base(n, n) && i < n
    requires Reducing(F, Rows(mat[..], n, n), Rows(inv[..], n, n), orig, n, i) && Rows(mat[..], n, n)[i][i] != 0
    modifies mat, inv
    ensures Reducing(F, Rows(mat[..], n, n), Rows(inv[..], n, n), orig, n, i) && Rows(mat[..], n, n)[i][i] == 1
  {
    ghost var M, V := Rows(mat[..], n, n), Rows(inv[..], n, n);
    assert Vec(F, M[i], n);
    var tmp := At(mat, n, n, i, i);
    if tmp != 1 {
      var inverse := Div(F, 1, tmp);
      ScaleStep(F, M, V, orig, n, i, inverse);
      ScaleRow(F, mat, n, n, i, inverse);
      ScaleRow(F, inv, n, n, i, inverse);
      assert Rows(mat[..], n, n) == Scaled(F, M, i, inverse) && Rows(inv[..], n, n) == Scaled(F, V, i, inverse);
    }
  }

  /** Add the pivot row to every row below it that has a non-zero entry in column `i`. */
  method ClearBelow(F: Field, mat: array<nat>, inv: array<nat>, n: nat, i: nat, ghost orig: seq<Row>)
    requires F.w >= 1 && mat != inv && mat.Length == inv.Length == Base(n, n) && i < n
    requires Reducing(F, Rows(mat[..], n, n), Rows(inv[..], n, n), orig, n, i) && Rows(mat[..], n, n)[i][i] == 1
    modifies mat, inv
    ensures Reducing(F, Rows(mat[..], n, n), Rows(inv[..], n, n), orig, n, i + 1)
  {
    hide Base, Reducing, Xor, Pow2;
    var j := i + 1;
    while j != n
      invariant i + 1 <= j <= n
      invariant Reducing(F, Rows(mat[..], n, n), Rows(inv[..], n, n), orig, n, i) && Rows(mat[..], n, n)[i][i] == 1
      invariant forall l :: i + 1 <= l < j ==> Rows(mat[..], n, n)[l][i] == 0
    {
      ghost var M, V := Rows(mat[..], n, n), Rows(inv[..], n, n);
      var tmp := At(mat, n, n, j, i);
      if tmp != 0 {
        ClearStep(F, M, V, orig, n, i, j);
        AddRow(F, mat, n, n, j, i, tmp);
        AddRow(F, inv, n, n, j, i, tmp);
        assert Rows(mat[..], n, n) == Added(F, M, j, i, tmp) && Rows(inv[..], n, n) == Added(F, V, j, i, tmp);
      }
      j := j + 1;
    }
    ColumnDone(F, Rows(mat[..], n, n), Rows(inv[..], n, n), orig, n, i);
  }

  // ----- back-substitution

  /** A reduced triangular matrix is the starting point of back-substitution. */
  lemma StartSolving(F: Field, mat: seq<Row>, inv: seq<Row>, orig: seq<Row>, n: nat)
    requires F.w >= 1 && Reducing(F, mat, inv, orig, n, n)
    ensures Solved(F, mat, inv, orig, n, n) && Triangular(mat, n, n)
  {
    forall x | Vec(F, x, n) ensures SolvedFor(F, mat, inv, orig, x, n, n, n) {
      assert RowsAgree(F, mat, inv, orig, x, n, n);
    }
  }

  /** Ready to clear column `i`: rows below `c` have lost it, row `i` and the later ones are solved. */
  ghost predicate Substituting(F: Field, mat: seq<Row>, inv: seq<Row>, orig: seq<Row>, n: nat, i: nat, c: nat)
    requires F.w >= 1
  {
    && Matrix(F, mat, n, n) && Matrix(F, inv, n, n) && Matrix(F, orig, n, n) && c <= i < n
    && Triangular(mat, n, n)
    && forall x :: Vec(F, x, n) ==> SolvedFor(F, mat, inv, orig, x, n, i, c)
  }

  /** Row `i` of a triangular matrix has only its diagonal entry left in the first `i + 1` columns. */
  lemma StartColumn(F: Field, mat: seq<Row>, inv: seq<Row>, orig: seq<Row>, n: nat, i: nat)
    requires F.w >= 1 && i < n && Solved(F, mat, inv, orig, n, i + 1) && Triangular(mat, n, n)
    ensures Substituting(F, mat, inv, orig, n, i, 0)
  {
    forall x | Vec(F, x, n) ensures SolvedFor(F, mat, inv, orig, x, n, i, 0) {
      StartColumnFor(F, mat, inv, orig, x, n, i);
    }
  }

  lemma StartColumnFor(F: Field, mat: seq<Row>, inv: seq<Row>, orig: seq<Row>, x: Row, n: nat, i: nat)
    requires F.w >= 1 && i < n && Matrix(F, mat, n, n) && Matrix(F, inv, n, n) && Matrix(F, orig, n, n)
    requires Triangular(mat, n, n) && Vec(F, x, n) && SolvedFor(F, mat, inv, orig, x, n, i + 1, i + 1)
    ensures SolvedFor(F, mat, inv, orig, x, n, i, 0)
  {
    DotUnit(F, mat[i], x, i, i + 1);
    hide Dot, Apply, Xor, Pow2, Triangular;
    assert RowAgrees(F, mat[i], inv[i], orig, x, i + 1);
  }

  lemma EndColumn(F: Field, mat: seq<Row>, inv: seq<Row>, orig: seq<Row>, n: nat, i: nat)
    requires F.w >= 1 && Substituting(F, mat, inv, orig, n, i, i)
    ensures Solved(F, mat, inv, orig, n, i) && Triangular(mat, n, n)
  {
    forall x | Vec(F, x, n) ensures SolvedFor(F, mat, inv, orig, x, n, i, i) {
    }
  }

  /** Row `c` of the inverse takes over what column `i` contributed; row `c` of `mat` may change
      from column `i` on. */
  lemma SubstituteStep(F: Field, mat: seq<Row>, inv: seq<Row>, orig: seq<Row>, n: nat, i: nat, c: nat, a: Row)
    requires F.w >= 1 && Substituting(F, mat, inv, orig, n, i, c) && c < i
    requires Vec(F, a, n) && forall l: nat :: l <= c || l < i ==> a[l] == mat[c][l]
    ensures Substituting(F, mat[c := a], Added(F, inv, c, i, mat[c][i]), orig, n, i, c + 1)
  {
    hide Dot, Apply, RowAgrees, SolvedFor, Triangular, Matrix, Elements;
    SubstituteShape(F, mat, inv, orig, n, i, c, a);
    forall x | Vec(F, x, n)
      ensures SolvedFor(F, mat[c := a], Added(F, inv, c, i, mat[c][i]), orig, x, n, i, c + 1)
    {
      SubstituteFor(F, mat, inv, orig, a, x, n, i, c);
    }
  }

  lemma SubstituteShape(F: Field, mat: seq<Row>, inv: seq<Row>, orig: seq<Row>, n: nat, i: nat, c: nat, a: Row)
    requires F.w >= 1 && Substituting(F, mat, inv, orig, n, i, c) && c < i
    requires Vec(F, a, n) && forall l: nat :: l <= c || l < i ==> a[l] == mat[c][l]
    ensures |inv| == |mat| == n && |inv[c]| == |inv[i]| == |mat[c]| == n
    ensures Matrix(F, mat[c := a], n, n) && Matrix(F, Added(F, inv, c, i, mat[c][i]), n, n)
    ensures Triangular(mat[c := a], n, n)
  {
    assert Vec(F, mat[c], n) && Vec(F, inv[c], n) && Vec(F, inv[i], n);
    AddedMatrix(F, inv, n, c, i, mat[c][i]);
  }

  lemma SubstituteFor(F: Field, mat: seq<Row>, inv: seq<Row>, orig: seq<Row>, a: Row, x: Row, n: nat, i: nat, c: nat)
    requires F.w >= 1 && Matrix(F, mat, n, n) && Matrix(F, inv, n, n) && Matrix(F, orig, n, n) && Vec(F, x, n)
    requires c < i < n && Vec(F, a, n) && forall l :: 0 <= l < i ==> a[l] == mat[c][l]
    requires Matrix(F, Added(F, inv, c, i, mat[c][i]), n, n)
    requires SolvedFor(F, mat, inv, orig, x, n, i, c)
    ensures SolvedFor(F, mat[c := a], Added(F, inv, c, i, mat[c][i]), orig, x, n, i, c + 1)
  {
    assert RowAgrees(F, mat[c], inv[c], orig, x, i + 1);
    assert Vec(F, mat[c], n) && Vec(F, inv[i], n);
    ApplyVec(F, orig, x);
    SubstituteDot(F, inv[c], inv[i], mat[c], a, mat[c][i], x, Apply(F, orig, x), i, n);
    assert RowAgrees(F, a, RowSum(F, inv[c], mat[c][i], inv[i]), orig, x, i);
    hide Dot, Apply, Xor, Pow2, RowAgrees;
  }

  lemma ZeroEntryStep(F: Field, mat: seq<Row>, inv: seq<Row>, orig: seq<Row>, n: nat, i: nat, c: nat)
    requires F.w >= 1 && Substituting(F, mat, inv, orig, n, i, c) && c < i
    ensures Substituting(F, mat[c := mat[c][i := 0]], inv[c := RowSum(F, inv[c], mat[c][i], inv[i])], orig, n, i, c + 1)
  {
    assert Vec(F, mat[c], n);
    OneEl(F);
    SubstituteStep(F, mat, inv, orig, n, i, c, mat[c][i := 0]);
  }

  lemma SubstituteDot(F: Field, b: Row, p: Row, m: Row, a: Row, t: nat, x: Row, y: Row, i: nat, n: nat)
    requires F.w >= 1 && i < n && |b| == |p| == |m| == |a| == |x| == |y| == n
    requires F.El(t) && Elements(F, p) && Elements(F, y) && t == m[i]
    requires Dot(F, b, y, n) == Dot(F, m, x, i + 1) && Dot(F, p, y, n) == x[i]
    requires forall l :: 0 <= l < i ==> a[l] == m[l]
    ensures Dot(F, RowSum(F, b, t, p), y, n) == Dot(F, a, x, i)
  {
    DotRowSum(F, b, t, p, y, n);
    DotSame(F, a, m, x, x, i);
    XorCancel(F.Mul(t, x[i]), Dot(F, m, x, i));
  }

  lemma NothingToSubstitute(F: Field, mat: seq<Row>, inv: seq<Row>, orig: seq<Row>, n: nat, i: nat, c: nat)
    requires F.w >= 1 && Substituting(F, mat, inv, orig, n, i, c) && c < i && mat[c][i] == 0
    ensures Substituting(F, mat, inv, orig, n, i, c + 1)
  {
    hide Dot, Apply, Triangular, Xor;
    forall x | Vec(F, x, n) ensures SolvedFor(F, mat, inv, orig, x, n, i, c + 1) {
      assert SolvedFor(F, mat, inv, orig, x, n, i, c);
      assert RowAgrees(F, mat[c], inv[c], orig, x, i + 1);
      DotStep(F, mat[c], x, i + 1);
      MulZeroLeft(F, x[i]);
      XorUnit(Dot(F, mat[c], x, i));
      assert RowAgrees(F, mat[c], inv[c], orig, x, i);
    }
  }

  method BackSubstitute(F: Field, mat: array<nat>, inv: array<nat>, n: nat, i: nat, ghost orig: seq<Row>)
    requires F.w >= 1 && mat != inv && mat.Length == inv.Length == Base(n, n) && i < n
    requires Substituting(F, Rows(mat[..], n, n), Rows(inv[..], n, n), orig, n, i, 0)
    modifies mat, inv
    ensures Substituting(F, Rows(mat[..], n, n), Rows(inv[..], n, n), orig, n, i, i)
  {
    hide *;
    var j := 0;
    while j < i
      invariant 0 <= j <= i
      invariant Substituting(F, Rows(mat[..], n, n), Rows(inv[..], n, n), orig, n, i, j)
    {
      ghost var M, V, s := Rows(mat[..], n, n), Rows(inv[..], n, n), mat[..];
      var tmp := At(mat, n, n, j, i);
      if tmp != 0 {
        ZeroEntryStep(F, M, V, orig, n, i, j);
        BaseBefore(j, n, n);
        mat[Base(j, n) + i] := 0;
        RowsUpdate(s, mat[..], n, n, j);
        assert RowOf(mat[..], n, n, j) == M[j][i := 0];
        AddRow(F, inv, n, n, j, i, tmp);
      } else {
        NothingToSubstitute(F, M, V, orig, n, i, j);
      }
      j := j + 1;
    }
  }

  // ----- the two routines

  /** The first pass: bring `mat` into triangular form. */
  method Triangulate(F: Field, mat: array<nat>, inv: array<nat>, n: nat, ghost orig: seq<Row>) returns (ok: bool)
    requires IsField(F) && mat != inv && mat.Length == inv.Length == Base(n, n)
    requires Reducing(F, Rows(mat[..], n, n), Rows(inv[..], n, n), orig, n, 0)
    modifies mat, inv
    ensures ok ==> Reducing(F, Rows(mat[..], n, n), Rows(inv[..], n, n), orig, n, n)
    ensures !ok ==> Singular(F, orig, n)
  {
    var i := 0;
    while i < n
      invariant 0 <= i <= n && Reducing(F, Rows(mat[..], n, n), Rows(inv[..], n, n), orig, n, i)
    {
      hide Reducing, Singular, Base, Rows, Xor, Pow2;
      ok := FindPivot(F, mat, inv, n, i, orig);
      if !ok { return; }
      Normalize(F, mat, inv, n, i, orig);
      ClearBelow(F, mat, inv, n, i, orig);
      i := i + 1;
    }
    ok := true;
  }

  /** The second pass, from the last row up. */
  method SubstituteAll(F: Field, mat: array<nat>, inv: array<nat>, n: nat, ghost orig: seq<Row>)
    requires F.w >= 1 && mat != inv && mat.Length == inv.Length == Base(n, n)
    requires Reducing(F, Rows(mat[..], n, n), Rows(inv[..], n, n), orig, n, n)
    modifies mat, inv
    ensures Solved(F, Rows(mat[..], n, n), Rows(inv[..], n, n), orig, n, 0)
  {
    hide *;
    StartSolving(F, Rows(mat[..], n, n), Rows(inv[..], n, n), orig, n);
    var i: int := n - 1;
    while i >= 0
      invariant -1 <= i < n && Triangular(Rows(mat[..], n, n), n, n)
      invariant Solved(F, Rows(mat[..], n, n), Rows(inv[..], n, n), orig, n, i + 1)
    {
      StartColumn(F, Rows(mat[..], n, n), Rows(inv[..], n, n), orig, n, i);
      BackSubstitute(F, mat, inv, n, i, orig);
      EndColumn(F, Rows(mat[..], n, n), Rows(inv[..], n, n), orig, n, i);
      i := i - 1;
    }
  }

  /** What a finished inversion has established. */
  lemma Finished(F: Field, mat: seq<Row>, inv: seq<Row>, orig: seq<Row>, n: nat)
    requires F.w >= 1 && Solved(F, mat, inv, orig, n, 0)
    ensures Matrix(F, inv, n, n) && Matrix(F, orig, n, n) && LeftInverse(F, inv, orig, n) && !Singular(F, orig, n)
  {
    SolvedIsInverse(F, mat, inv, orig, n);
    InverseNotSingular(F, inv, orig, n);
  }

  lemma Start(F: Field, mat: seq<Row>, inv: seq<Row>, n: nat)
    requires F.w >= 1 && Matrix(F, mat, n, n) && |inv| == n
    requires forall r :: 0 <= r < n ==> |inv[r]| == n && IsUnit(inv[r], r)
    ensures Reducing(F, mat, inv, mat, n, 0)
  {
    StartTracking(F, mat, inv, n);
  }

  /** Returns 0 and leaves the inverse in `inv`, or returns -1. */
  method InvertMatrix(F: Field, mat: array<nat>, inv: array<nat>, n: nat) returns (r: int)
    requires IsField(F) && mat != inv && mat.Length == inv.Length == Base(n, n)
    requires Matrix(F, Rows(mat[..], n, n), n, n)
    modifies mat, inv
    ensures r == 0 || r == -1
    ensures r == 0 ==> Matrix(F, Rows(inv[..], n, n), n, n)
    ensures r == 0 ==> LeftInverse(F, Rows(inv[..], n, n), old(Rows(mat[..], n, n)), n)
    ensures r == -1 <==> Singular(F, old(Rows(mat[..], n, n)), n)
  {
    assert F.w >= 1;
    hide *;
    ghost var orig := Rows(mat[..], n, n);
    WriteIdentity(inv, n);
    Start(F, orig, Rows(inv[..], n, n), n);
    var ok := Triangulate(F, mat, inv, n, orig);
    if !ok { return -1; }
    SubstituteAll(F, mat, inv, n, orig);
    Finished(F, Rows(mat[..], n, n), Rows(inv[..], n, n), orig, n);
    r := 0;
  }
}
