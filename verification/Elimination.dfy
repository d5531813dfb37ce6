/** What the row operations of Gaussian elimination keep, for matrices over GF(2^w).

    `mat` is the matrix being reduced, `inv` collects the operations, `orig` is the matrix that
    was passed in.  `Tracks` is what makes the result an inverse, `Covers` what makes a failure
    a proof that there is none. */
module Elimination {
  import opened Bits
  import opened Galois
  import opened LinearAlgebra
  import opened RowOperations

  /** For every vector x: `mat` applied to x is `inv` applied to `orig` applied to x. */
  ghost predicate Tracks(F: Field, mat: seq<Row>, inv: seq<Row>, orig: seq<Row>, n: nat)
    requires F.w >= 1
  {
    && Matrix(F, mat, n, n) && Matrix(F, inv, n, n) && Matrix(F, orig, n, n)
    && forall x :: Vec(F, x, n) ==> RowsAgree(F, mat, inv, orig, x, n, n)
  }

  /** On the first `k` columns of `mat`. */
  ghost predicate RowAgrees(F: Field, a: Row, b: Row, orig: seq<Row>, x: Row, k: nat)
    requires F.w >= 1 && Matrix(F, orig, |orig|, |x|) && |orig| == |b| && k <= |a| == |x|
  {
    Dot(F, b, Apply(F, orig, x), |b|) == Dot(F, a, x, k)
  }

  ghost predicate RowsAgree(F: Field, mat: seq<Row>, inv: seq<Row>, orig: seq<Row>, x: Row, n: nat, k: nat)
    requires F.w >= 1 && k <= n
    requires Matrix(F, mat, n, n) && Matrix(F, inv, n, n) && Matrix(F, orig, n, n) && Vec(F, x, n)
  {
    forall i :: 0 <= i < n ==> RowAgrees(F, mat[i], inv[i], orig, x, k)
  }

  /** `x` is in the kernel of `mat`. */
  ghost predicate Kills(F: Field, mat: seq<Row>, x: Row, n: nat)
    requires F.w >= 1 && Matrix(F, mat, n, n) && Vec(F, x, n)
  {
    forall i :: 0 <= i < n ==> Dot(F, mat[i], x, n) == 0
  }

  /** The kernel of `mat` lies in the kernel of `orig`. */
  ghost predicate Covers(F: Field, mat: seq<Row>, orig: seq<Row>, n: nat)
    requires F.w >= 1 && Matrix(F, mat, n, n) && Matrix(F, orig, n, n)
  {
    forall x :: Vec(F, x, n) && Kills(F, mat, x, n) ==> Kills(F, orig, x, n)
  }

  /** The matrix sends some non-zero vector to zero. */
  ghost predicate Singular(F: Field, M: seq<Row>, n: nat)
    requires F.w >= 1 && Matrix(F, M, n, n)
  {
    exists x, p :: Vec(F, x, n) && Kills(F, M, x, n) && 0 <= p < n && x[p] != 0
  }

  /** `inv * orig` is the identity: it sends every vector to itself. */
  ghost predicate LeftInverse(F: Field, inv: seq<Row>, orig: seq<Row>, n: nat)
    requires F.w >= 1 && Matrix(F, inv, n, n) && Matrix(F, orig, n, n)
  {
    forall x :: Vec(F, x, n) ==> Apply(F, inv, Apply(F, orig, x)) == x
  }

  // ----- the row operations

  lemma RowSumElements(F: Field, b: Row, t: nat, a: Row)
    requires F.w >= 1 && |a| == |b| && F.El(t) && Elements(F, a) && Elements(F, b)
    ensures Elements(F, RowSum(F, b, t, a))
  {
    forall j | 0 <= j < |b| ensures F.El(RowSum(F, b, t, a)[j]) {
      MulEl(F, t, a[j]);
      ElXor(F, b[j], F.Mul(t, a[j]));
    }
  }

  lemma RowScaleElements(F: Field, t: nat, a: Row)
    requires F.w >= 1 && F.El(t) && Elements(F, a)
    ensures Elements(F, RowScale(F, t, a))
  {
    forall j | 0 <= j < |a| ensures F.El(RowScale(F, t, a)[j]) { MulEl(F, a[j], t); }
  }

  lemma DotRowSum(F: Field, b: Row, t: nat, a: Row, x: Row, k: nat)
    requires F.w >= 1 && k <= |a| == |b| == |x| && F.El(t) && Elements(F, a) && Elements(F, x)
    ensures Dot(F, RowSum(F, b, t, a), x, k) == Xor(Dot(F, b, x, k), F.Mul(t, Dot(F, a, x, k)))
  {
    DotAxpy(F, t, a, b, RowSum(F, b, t, a), x, k);
  }

  lemma DotRowScale(F: Field, t: nat, a: Row, x: Row, k: nat)
    requires F.w >= 1 && k <= |a| == |x| && F.El(t) && Elements(F, a) && Elements(F, x)
    ensures Dot(F, RowScale(F, t, a), x, k) == F.Mul(t, Dot(F, a, x, k))
  {
    forall j | 0 <= j < k ensures RowScale(F, t, a)[j] == F.Mul(t, a[j]) { MulComm(F, a[j], t); }
    DotScale(F, t, a, RowScale(F, t, a), x, k);
  }

  /** The matrices after `dst += t * src`. */
  ghost function Added(F: Field, M: seq<Row>, dst: nat, src: nat, t: nat): seq<Row>
    requires F.w >= 1 && dst < |M| && src < |M| && |M[dst]| == |M[src]|
  {
    M[dst := RowSum(F, M[dst], t, M[src])]
  }

  lemma AddedMatrix(F: Field, M: seq<Row>, n: nat, dst: nat, src: nat, t: nat)
    requires F.w >= 1 && Matrix(F, M, n, n) && dst < n && src < n && F.El(t)
    ensures Matrix(F, Added(F, M, dst, src, t), n, n)
  {
    RowSumElements(F, M[dst], t, M[src]);
  }

  lemma AddTracks(F: Field, mat: seq<Row>, inv: seq<Row>, orig: seq<Row>, n: nat, dst: nat, src: nat, t: nat)
    requires F.w >= 1 && Tracks(F, mat, inv, orig, n) && dst < n && src < n && dst != src && F.El(t)
    ensures Tracks(F, Added(F, mat, dst, src, t), Added(F, inv, dst, src, t), orig, n)
  {
    var mat', inv' := Added(F, mat, dst, src, t), Added(F, inv, dst, src, t);
    AddedMatrix(F, mat, n, dst, src, t);
    AddedMatrix(F, inv, n, dst, src, t);
    hide Xor, Pow2;
    forall x | Vec(F, x, n) ensures RowsAgree(F, mat', inv', orig, x, n, n) {
      ApplyVec(F, orig, x);
      assert RowsAgree(F, mat, inv, orig, x, n, n);
      assert RowAgrees(F, mat[dst], inv[dst], orig, x, n) && RowAgrees(F, mat[src], inv[src], orig, x, n);
      DotRowSum(F, mat[dst], t, mat[src], x, n);
      DotRowSum(F, inv[dst], t, inv[src], Apply(F, orig, x), n);
    }
  }

  lemma AddCovers(F: Field, mat: seq<Row>, orig: seq<Row>, n: nat, dst: nat, src: nat, t: nat)
    requires F.w >= 1 && Matrix(F, mat, n, n) && Matrix(F, orig, n, n) && Covers(F, mat, orig, n)
    requires dst < n && src < n && dst != src && F.El(t)
    ensures Matrix(F, Added(F, mat, dst, src, t), n, n) && Covers(F, Added(F, mat, dst, src, t), orig, n)
  {
    var mat' := Added(F, mat, dst, src, t);
    AddedMatrix(F, mat, n, dst, src, t);
    forall x | Vec(F, x, n) && Kills(F, mat', x, n) ensures Kills(F, orig, x, n) {
      assert Dot(F, mat'[src], x, n) == 0 && Dot(F, mat'[dst], x, n) == 0;
      DotRowSum(F, mat[dst], t, mat[src], x, n);
      MulZeroRight(F, t);
      XorUnit(Dot(F, mat[dst], x, n));
      forall i | 0 <= i < n ensures Dot(F, mat[i], x, n) == 0 {
        if i != dst { assert mat'[i] == mat[i]; }
      }
      assert Kills(F, mat, x, n);
    }
  }

  ghost function Scaled(F: Field, M: seq<Row>, i: nat, t: nat): seq<Row>
    requires F.w >= 1 && i < |M|
  {
    M[i := RowScale(F, t, M[i])]
  }

  lemma ScaledMatrix(F: Field, M: seq<Row>, n: nat, i: nat, t: nat)
    requires F.w >= 1 && Matrix(F, M, n, n) && i < n && F.El(t)
    ensures Matrix(F, Scaled(F, M, i, t), n, n)
  {
    RowScaleElements(F, t, M[i]);
  }

  lemma ScaleTracks(F: Field, mat: seq<Row>, inv: seq<Row>, orig: seq<Row>, n: nat, i: nat, t: nat)
    requires F.w >= 1 && Tracks(F, mat, inv, orig, n) && i < n && F.El(t)
    ensures Tracks(F, Scaled(F, mat, i, t), Scaled(F, inv, i, t), orig, n)
  {
    var mat', inv' := Scaled(F, mat, i, t), Scaled(F, inv, i, t);
    ScaledMatrix(F, mat, n, i, t);
    ScaledMatrix(F, inv, n, i, t);
    forall x | Vec(F, x, n) ensures RowsAgree(F, mat', inv', orig, x, n, n) {
      ApplyVec(F, orig, x);
      assert RowsAgree(F, mat, inv, orig, x, n, n);
      assert RowAgrees(F, mat[i], inv[i], orig, x, n);
      DotRowScale(F, t, mat[i], x, n);
      DotRowScale(F, t, inv[i], Apply(F, orig, x), n);
    }
  }

  lemma ScaleCovers(F: Field, mat: seq<Row>, orig: seq<Row>, n: nat, i: nat, t: nat)
    requires IsField(F) && Matrix(F, mat, n, n) && Matrix(F, orig, n, n) && Covers(F, mat, orig, n)
    requires i < n && F.El(t) && t != 0
    ensures Matrix(F, Scaled(F, mat, i, t), n, n) && Covers(F, Scaled(F, mat, i, t), orig, n)
  {
    var mat' := Scaled(F, mat, i, t);
    ScaledMatrix(F, mat, n, i, t);
    forall x | Vec(F, x, n) && Kills(F, mat', x, n) ensures Kills(F, orig, x, n) {
      assert Dot(F, mat'[i], x, n) == 0;
      DotRowScale(F, t, mat[i], x, n);
      DotEl(F, mat[i], x, n);
      MulNonzero(F, t, Dot(F, mat[i], x, n));
      forall j | 0 <= j < n ensures Dot(F, mat[j], x, n) == 0 {
        if j != i { assert mat'[j] == mat[j]; }
      }
      assert Kills(F, mat, x, n);
    }
  }

  lemma SwapTracks(F: Field, mat: seq<Row>, inv: seq<Row>, orig: seq<Row>, n: nat, i: nat, j: nat)
    requires F.w >= 1 && Tracks(F, mat, inv, orig, n) && i < n && j < n
    ensures Tracks(F, Swapped(mat, i, j), Swapped(inv, i, j), orig, n)
  {
    hide RowAgrees, Dot, Apply, Xor, Pow2;
    var mat', inv' := Swapped(mat, i, j), Swapped(inv, i, j);
    forall x | Vec(F, x, n) ensures RowsAgree(F, mat', inv', orig, x, n, n) {
      assert RowsAgree(F, mat, inv, orig, x, n, n);
      forall r | 0 <= r < n ensures RowAgrees(F, mat'[r], inv'[r], orig, x, n) {
        var q := if r == i then j else if r == j then i else r;
        assert RowAgrees(F, mat[q], inv[q], orig, x, n);
      }
    }
  }

  lemma SwapCovers(F: Field, mat: seq<Row>, orig: seq<Row>, n: nat, i: nat, j: nat)
    requires F.w >= 1 && Matrix(F, mat, n, n) && Matrix(F, orig, n, n) && Covers(F, mat, orig, n)
    requires i < n && j < n
    ensures Matrix(F, Swapped(mat, i, j), n, n) && Covers(F, Swapped(mat, i, j), orig, n)
  {
    var mat' := Swapped(mat, i, j);
    forall x | Vec(F, x, n) && Kills(F, mat', x, n) ensures Kills(F, orig, x, n) {
      forall r | 0 <= r < n ensures Dot(F, mat[r], x, n) == 0 {
        var q := if r == i then j else if r == j then i else r;
        assert Dot(F, mat'[q], x, n) == 0;
      }
      assert Kills(F, mat, x, n);
    }
  }

  lemma StartTracking(F: Field, mat: seq<Row>, inv: seq<Row>, n: nat)
    requires F.w >= 1 && Matrix(F, mat, n, n) && |inv| == n
    requires forall r :: 0 <= r < n ==> |inv[r]| == n && IsUnit(inv[r], r)
    ensures Tracks(F, mat, inv, mat, n) && Covers(F, mat, mat, n)
  {
    OneEl(F);
    forall x | Vec(F, x, n) ensures RowsAgree(F, mat, inv, mat, x, n, n) {
      forall r | 0 <= r < n ensures RowAgrees(F, mat[r], inv[r], mat, x, n) {
        DotUnit(F, inv[r], Apply(F, mat, x), r, n);
      }
    }
  }

  lemma OneEl(F: Field)
    requires F.w >= 1
    ensures F.El(1) && F.El(0)
  {
  }

  // ----- the shape of a half-reduced matrix

  /** Ones on the diagonal and zeros below it in the columns below `i`. */
  ghost predicate Triangular(mat: seq<Row>, n: nat, i: nat) {
    && |mat| == n && (forall j :: 0 <= j < n ==> |mat[j]| == n)
    && forall j: nat, l: nat :: j < n && l < i && l <= j ==> mat[j][l] == if l == j then 1 else 0
  }

  /** Without a pivot in column `i`, back-substitution builds a kernel vector. */
  lemma {:induction false} NoPivot(F: Field, mat: seq<Row>, n: nat, i: nat, j: nat) returns (v: Row)
    requires F.w >= 1 && Matrix(F, mat, n, n) && j <= i < n && Triangular(mat, n, i)
    requires forall l :: i <= l < n ==> mat[l][i] == 0
    ensures Vec(F, v, n) && v[i] == 1 && forall l :: 0 <= l < j ==> v[l] == 0
    ensures forall l: nat :: j <= l < n ==> Dot(F, mat[l], v, n) == 0
    decreases i - j
  {
    OneEl(F);
    if j == i {
      var zero := seq(n, _ => 0);
      v := zero[i := 1];
      forall l: nat | i <= l < n ensures Dot(F, mat[l], v, n) == 0 {
        DotZero(F, mat[l], zero, n);
        DotFill(F, mat[l], zero, i, 1, n);
        XorUnit(0);
        assert F.Mul(0, 1) == 0;
      }
    } else {
      var u := NoPivot(F, mat, n, i, j + 1);
      var p := Dot(F, mat[j], u, n);
      DotEl(F, mat[j], u, n);
      v := u[j := p];
      forall l: nat | j <= l < n ensures Dot(F, mat[l], v, n) == 0 {
        DotFill(F, mat[l], u, j, p, n);
        MulOneLeft(F, p);
        XorSelf(p);
        XorUnit(0);
        assert F.Mul(0, p) == 0;
      }
    }
  }

  lemma NoPivotSingular(F: Field, mat: seq<Row>, orig: seq<Row>, n: nat, i: nat)
    requires F.w >= 1 && Matrix(F, mat, n, n) && Matrix(F, orig, n, n) && Covers(F, mat, orig, n)
    requires i < n && Triangular(mat, n, i) && forall l :: i <= l < n ==> mat[l][i] == 0
    ensures Singular(F, orig, n)
  {
    var v := NoPivot(F, mat, n, i, 0);
    assert Kills(F, mat, v, n);
  }

  // ----- back-substitution

  /** Rows from `i` on are solved; the others agree with `mat` on its first `i` columns. */
  ghost predicate Solved(F: Field, mat: seq<Row>, inv: seq<Row>, orig: seq<Row>, n: nat, i: nat)
    requires F.w >= 1
  {
    && Matrix(F, mat, n, n) && Matrix(F, inv, n, n) && Matrix(F, orig, n, n) && i <= n
    && forall x :: Vec(F, x, n) ==> SolvedFor(F, mat, inv, orig, x, n, i, i)
  }

  /** Rows below `c` agree on `i` columns, rows in `c..i` on one more, the rest is solved. */
  ghost predicate SolvedFor(F: Field, mat: seq<Row>, inv: seq<Row>, orig: seq<Row>, x: Row, n: nat, i: nat, c: nat)
    requires F.w >= 1 && c <= i <= n && (c < i ==> i < n)
    requires Matrix(F, mat, n, n) && Matrix(F, inv, n, n) && Matrix(F, orig, n, n) && Vec(F, x, n)
  {
    && (forall j :: 0 <= j < c ==> RowAgrees(F, mat[j], inv[j], orig, x, i))
    && (forall j :: c <= j < i ==> RowAgrees(F, mat[j], inv[j], orig, x, i + 1))
    && (forall j :: i <= j < n ==> Dot(F, inv[j], Apply(F, orig, x), n) == x[j])
  }

  lemma SolvedIsInverse(F: Field, mat: seq<Row>, inv: seq<Row>, orig: seq<Row>, n: nat)
    requires F.w >= 1 && Solved(F, mat, inv, orig, n, 0)
    ensures LeftInverse(F, inv, orig, n)
  {
    forall x | Vec(F, x, n) ensures Apply(F, inv, Apply(F, orig, x)) == x {
      ApplyVec(F, orig, x);
      assert SolvedFor(F, mat, inv, orig, x, n, 0, 0);
    }
  }

  lemma InverseNotSingular(F: Field, inv: seq<Row>, orig: seq<Row>, n: nat)
    requires F.w >= 1 && Matrix(F, inv, n, n) && Matrix(F, orig, n, n) && LeftInverse(F, inv, orig, n)
    ensures !Singular(F, orig, n)
  {
    if Singular(F, orig, n) {
      var x, p :| Vec(F, x, n) && Kills(F, orig, x, n) && 0 <= p < n && x[p] != 0;
      KernelIsZero(F, inv, orig, x, n, p);
    }
  }

  lemma KernelIsZero(F: Field, inv: seq<Row>, orig: seq<Row>, x: Row, n: nat, p: nat)
    requires F.w >= 1 && Matrix(F, inv, n, n) && Matrix(F, orig, n, n) && LeftInverse(F, inv, orig, n)
    requires Vec(F, x, n) && Kills(F, orig, x, n) && p < n
    ensures x[p] == 0
  {
    hide Dot, Field.Mul, Xor;
    var y := Apply(F, orig, x);
    assert Vec(F, y, n) by { ApplyVec(F, orig, x); }
    assert Dot(F, inv[p], y, n) == 0 by { DotZero(F, inv[p], y, n); }
    assert Apply(F, inv, y)[p] == x[p];
  }
}
