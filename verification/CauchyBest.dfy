/** `cauchy_good_general_coding_matrix`, with its ready-made matrices for two coding devices: a row of
    ones and a row of different non-zero entries. */
module CauchyBest {
  import opened FiniteSets
  import opened Bits
  import opened Galois
  import opened LinearAlgebra
  import opened RowMajor
  import opened Elimination
  import opened Survivors
  import opened Devices
  import opened CauchyMDS
  import opened CauchyMatrix
  import opened CauchyImprove
  import CauchyDecode

  /** What the tables contain: different non-zero elements. */
  ghost predicate BestEntries(F: Field, best: seq<nat>) {
    && (forall j :: 0 <= j < |best| ==> F.El(best[j]) && best[j] != 0)
    && forall i, j :: 0 <= i < j < |best| ==> best[i] != best[j]
  }

  ghost predicate BestRows(F: Field, C: seq<Row>, k: nat) {
    |C| == 2 && |C[0]| == |C[1]| == k && (forall j :: 0 <= j < k ==> C[0][j] == 1) && BestEntries(F, C[1])
  }

  lemma BestElements(F: Field, C: seq<Row>, k: nat)
    requires F.w >= 1 && BestRows(F, C, k)
    ensures Matrix(F, C, 2, k)
  {
    OneEl(F);
    assert Vec(F, C[0], k) && Vec(F, C[1], k);
  }

  /** As many coding rows survive as columns are lost. */
  lemma RowsForLost(ids: seq<nat>, k: nat)
    requires Distinct(ids) && |ids| == k && forall i :: i in ids ==> i < k + 2
    ensures |Lost(ids, k)| <= 2
    ensures |Lost(ids, k)| == 2 ==> k in ids && k + 1 in ids
    ensures |Lost(ids, k)| == 1 ==> k in ids || k + 1 in ids
  {
    DistinctMembers(ids);
    LostCount(ids, k);
    CodingCount(Members(ids), k);
    var rows := CodingRows(Members(ids), k);
    assert forall r :: r in rows ==> r == 0 || r == 1;
    assert rows <= {0, 1};
    SubsetCount(rows, {0, 1});
    if |rows| == 2 { Both(rows); }
    if |rows| == 1 { var r :| r in rows; }
  }

  lemma Both(rows: set<nat>)
    requires rows <= {0, 1} && |rows| == 2
    ensures 0 in rows && 1 in rows
  {
    if 0 !in rows { SubsetCount(rows, {1}); }
    if 1 !in rows { SubsetCount(rows, {0}); }
  }

  /** One column is lost: its entry in the surviving row is not zero. */
  lemma OneLost(F: Field, p: Row, y: Row)
    requires IsField(F) && |p| == |y| == 1 && F.El(p[0]) && p[0] != 0 && F.El(y[0]) && Dot(F, p, y, 1) == 0
    ensures y[0] == 0
  {
    DotStep(F, p, y, 1);
    assert Dot(F, p, y, 0) == 0;
    XorUnit(F.Mul(p[0], y[0]));
    MulNonzero(F, p[0], y[0]);
  }

  /** Two columns are lost: the row of ones makes the unknowns equal, the other row makes them zero. */
  lemma TwoLost(F: Field, p: Row, q: Row, y: Row)
    requires IsField(F) && |p| == |q| == |y| == 2 && p[0] == p[1] == 1
    requires F.El(q[0]) && F.El(q[1]) && q[0] != q[1] && F.El(y[0]) && F.El(y[1])
    requires Dot(F, p, y, 2) == 0 && Dot(F, q, y, 2) == 0
    ensures y[0] == y[1] == 0
  {
    TwoTerms(F, p, y);
    TwoTerms(F, q, y);
    hide Dot, Xor, Field.Mul;
    MulOneLeft(F, y[0]);
    MulOneLeft(F, y[1]);
    XorZero(y[0], y[1]);
    MulXorLeft(F, q[0], q[1], y[0]);
    ElXor(F, q[0], q[1]);
    MulNonzero(F, Xor(q[0], q[1]), y[0]);
    XorZero(q[0], q[1]);
  }

  lemma TwoTerms(F: Field, p: Row, y: Row)
    requires F.w >= 1 && |p| == |y| == 2
    ensures Dot(F, p, y, 2) == Xor(F.Mul(p[0], y[0]), F.Mul(p[1], y[1]))
  {
    DotStep(F, p, y, 1);
    DotStep(F, p, y, 2);
    assert Dot(F, p, y, 0) == 0;
    XorUnit(F.Mul(p[0], y[0]));
  }

  lemma BestColumnsZero(F: Field, C: seq<Row>, k: nat, ids: seq<nat>, x: Row)
    requires IsField(F) && BestRows(F, C, k) && Vec(F, x, k)
    requires Distinct(ids) && |ids| == k && forall i :: i in ids ==> i < k + 2
    requires forall c: nat :: c < k && c in ids ==> x[c] == 0
    requires forall i: nat :: i < 2 && i + k in ids ==> Dot(F, C[i], x, k) == 0
    ensures forall c :: 0 <= c < k ==> x[c] == 0
  {
    hide Dot, Xor, Field.Mul, HasInverse;
    RowsForLost(ids, k);
    OneEl(F);
    var lost := Lost(ids, k);
    var y := Pick(x, lost);
    DotLost(F, C[0], x, ids, k);
    DotLost(F, C[1], x, ids, k);
    if |lost| == 1 {
      if k in ids {
        assert Dot(F, C[0], x, k) == 0;
        OneLost(F, Pick(C[0], lost), y);
      } else {
        assert 1 + k in ids;
        OneLost(F, Pick(C[1], lost), y);
      }
    } else if |lost| == 2 {
      assert 0 + k in ids && 1 + k in ids;
      LostDiffer(lost, C[1]);
      TwoLost(F, Pick(C[0], lost), Pick(C[1], lost), y);
    }
    forall c: nat | c < k ensures x[c] == 0 {
      if c !in ids {
        LostComplete(ids, k, c);
        var j :| 0 <= j < |lost| && lost[j] == c;
        assert y[j] == 0;
      }
    }
  }

  lemma LostDiffer(lost: seq<nat>, q: Row)
    requires |lost| == 2 && Distinct(lost) && (forall j :: 0 <= j < 2 ==> lost[j] < |q|)
    requires forall i, j :: 0 <= i < j < |q| ==> q[i] != q[j]
    ensures q[lost[0]] != q[lost[1]]
  {
    if lost[0] < lost[1] { assert q[lost[0]] != q[lost[1]]; }
  }

  /** With the ready-made rows, too, any k devices determine the data. */
  lemma BestRowsInvertible(F: Field, C: seq<Row>, k: nat)
    requires IsField(F) && BestRows(F, C, k)
    ensures AnyKInvertible(F, C, 2, k)
  {
    BestElements(F, C, k);
    forall ids: seq<nat> | Selection(ids, k, 2) ensures |C| == 2 && !Singular(F, SurvivorMatrix(C, k, ids), k) {
      var M := SurvivorMatrix(C, k, ids);
      SurvivorMatrixElements(F, C, k, 2, ids);
      if Singular(F, M, k) {
        var x, p :| Vec(F, x, k) && Kills(F, M, x, k) && 0 <= p < k && x[p] != 0;
        KernelEquations(F, C, 2, k, ids, x);
        BestColumnsZero(F, C, k, ids, x);
      }
    }
  }

  method WriteBestRows(F: Field, k: nat, best: seq<nat>) returns (matrix: array<nat>)
    requires F.w >= 1 && k <= |best| && BestEntries(F, best)
    ensures fresh(matrix) && matrix.Length == Base(2, k) && BestRows(F, Rows(matrix[..], 2, k), k)
    ensures Rows(matrix[..], 2, k)[1] == best[..k]
  {
    BaseStep(0, k);
    BaseStep(1, k);
    matrix := new nat[Base(2, k)];
    hide Base;
    var i: nat := 0;
    while i < k
      invariant i <= k
      invariant forall j :: 0 <= j < i ==> matrix[j] == 1 && matrix[j + k] == best[j]
    {
      matrix[i] := 1;
      matrix[i + k] := best[i];
      i := i + 1;
    }
    BestWritten(F, matrix[..], k, best);
  }

  lemma BestWritten(F: Field, s: seq<nat>, k: nat, best: seq<nat>)
    requires |s| == Base(2, k) && k <= |best| && BestEntries(F, best) && Base(0, k) == 0 && Base(1, k) == k
    requires |s| == 2 * k && forall j :: 0 <= j < k ==> s[j] == 1 && s[j + k] == best[j]
    ensures BestRows(F, Rows(s, 2, k), k) && Rows(s, 2, k)[1] == best[..k]
  {
    hide Base;
    var C := Rows(s, 2, k);
    assert C[0] == s[..k] && C[1] == s[k..k + k];
    assert C[1] == best[..k] by {
      forall j: nat | j < k ensures C[1][j] == best[j] { assert s[j + k] == best[j]; }
    }
  }

  /** Everything the encoders and decoders need of the coding matrix. */
  ghost predicate GoodCode(F: Field, C: seq<Row>, m: nat, k: nat)
    requires F.w >= 1
  {
    && AnyKInvertible(F, C, m, k) && m >= 1 && |C| == m && C[0] == AllOnes(k)
    && (k >= 1 ==> forall i :: 0 <= i < m ==> HasNonzero(C[i]))
  }

  method GoodGeneralCodingMatrix(F: Field, k: nat, m: nat, best: seq<nat>) returns (matrix: array?<nat>)
    requires IsField(F) && m >= 1 && BestEntries(F, best)
    requires F.w >= 31 ==> k + m <= Pow2(F.w)
    ensures matrix == null <==> !(m == 2 && k <= |best|) && F.w < 31 && k + m > Pow2(F.w)
    ensures matrix != null ==> matrix.Length == Base(m, k) && GoodCode(F, Rows(matrix[..], m, k), m, k)
    ensures matrix != null && m == 2 && k <= |best| ==> Rows(matrix[..], m, k) == [AllOnes(k), best[..k]]
    ensures matrix != null && !(m == 2 && k <= |best|) ==>
      exists C: seq<Row> :: Reciprocals(F, C, m, k) && Improved(F, C, Rows(matrix[..], m, k), m, k)
  {
    hide Base, ScaledCauchy, Singular, AnyKInvertible, HasInverse, Pow2, Reciprocals, FewestOnes;
    if m == 2 && k <= |best| {
      var a := WriteBestRows(F, k, best);
      BestRowsInvertible(F, Rows(a[..], 2, k), k);
      BestIsGood(F, Rows(a[..], 2, k), k);
      matrix := a;
    } else {
      ghost var C, a, b;
      matrix, C, a, b := ImprovedOriginalMatrix(F, k, m);
      if matrix != null {
        assert Rows(matrix[..], m, k)[0] == AllOnes(k);
        ScaledCauchyInvertible(F, Rows(matrix[..], m, k), m, k, a, b);
        if k >= 1 { CauchyDecode.NoZeroRow(F, Rows(matrix[..], m, k), k, m, a, b); }
      }
    }
  }

  lemma BestIsGood(F: Field, C: seq<Row>, k: nat)
    requires F.w >= 1 && BestRows(F, C, k) && AnyKInvertible(F, C, 2, k)
    ensures GoodCode(F, C, 2, k)
  {
    assert C[0] == AllOnes(k);
    if k >= 1 {
      assert C[0][0] != 0 && C[1][0] != 0;
      assert HasNonzero(C[0]) && HasNonzero(C[1]);
    }
  }
}
