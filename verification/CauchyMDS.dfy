/** Every choice of k rows of [I; C] is invertible, for a Cauchy matrix C whose rows and columns
    have been rescaled. */
module CauchyMDS {
  import opened Bits
  import opened Galois
  import opened LinearAlgebra
  import opened Elimination
  import opened Survivors
  import opened CauchyTheory

  /** Row `i`: its entries are `ai * b[j] / (i + (m + j))`. */
  ghost predicate CauchyRow(F: Field, row: Row, i: nat, m: nat, k: nat, ai: nat, b: Row)
    requires F.w >= 1
  {
    && Vec(F, row, k) && |b| == k
    && forall j: nat :: j < k ==> F.Mul(Xor(i, m + j), row[j]) == F.Mul(ai, b[j])
  }

  ghost predicate Nonzero(F: Field, v: Row) { forall j :: 0 <= j < |v| ==> F.El(v[j]) && v[j] != 0 }

  /** A Cauchy matrix whose row `i` was multiplied by `a[i]` and whose column `j` by `b[j]`. */
  ghost predicate ScaledCauchy(F: Field, C: seq<Row>, m: nat, k: nat, a: Row, b: Row)
    requires F.w >= 1
  {
    && |C| == |a| == m && |b| == k && k + m <= Pow2(F.w) && Nonzero(F, a) && Nonzero(F, b)
    && forall i: nat :: i < m ==> CauchyRow(F, C[i], i, m, k, a[i], b)
  }

  lemma CauchyMatrixElements(F: Field, C: seq<Row>, m: nat, k: nat, a: Row, b: Row)
    requires F.w >= 1 && ScaledCauchy(F, C, m, k, a, b)
    ensures Matrix(F, C, m, k)
  {
    forall i | 0 <= i < m ensures Vec(F, C[i], k) { assert CauchyRow(F, C[i], i, m, k, a[i], b); }
  }

  // ----- restricting an inner product to the lost columns

  function Pick(x: Row, cols: seq<nat>): (y: Row)
    requires forall j :: 0 <= j < |cols| ==> cols[j] < |x|
    ensures |y| == |cols| && forall j :: 0 <= j < |cols| ==> y[j] == x[cols[j]]
  {
    seq(|cols|, j requires 0 <= j < |cols| => x[cols[j]])
  }

  lemma {:induction false} DotLost(F: Field, a: Row, x: Row, ids: seq<nat>, n: nat)
    requires F.w >= 1 && n <= |a| && n <= |x|
    requires forall c: nat :: c < n && c in ids ==> x[c] == 0
    ensures var lost := Lost(ids, n); Dot(F, Pick(a, lost), Pick(x, lost), |lost|) == Dot(F, a, x, n)
  {
    if n > 0 {
      DotLost(F, a, x, ids, n - 1);
      var lost, rest := Lost(ids, n), Lost(ids, n - 1);
      DotStep(F, a, x, n);
      if n - 1 in ids {
        MulZeroRight(F, a[n - 1]);
        XorUnit(Dot(F, a, x, n - 1));
      } else {
        DotSame(F, Pick(a, lost), Pick(a, rest), Pick(x, lost), Pick(x, rest), |rest|);
        DotStep(F, Pick(a, lost), Pick(x, lost), |lost|);
      }
    }
  }

  lemma {:induction false} DotProportional(F: Field, t: nat, p: Row, x: Row, q: Row, y: Row, n: nat)
    requires F.w >= 1 && n <= |p| && n <= |x| && n <= |q| && n <= |y| && Elements(F, y)
    requires forall j :: 0 <= j < n ==> F.Mul(p[j], x[j]) == F.Mul(t, F.Mul(q[j], y[j]))
    ensures Dot(F, p, x, n) == F.Mul(t, Dot(F, q, y, n))
  {
    if n == 0 {
      MulZeroRight(F, t);
    } else {
      DotProportional(F, t, p, x, q, y, n - 1);
      DotStep(F, p, x, n);
      DotStep(F, q, y, n);
      DotEl(F, q, y, n - 1);
      MulEl(F, q[n - 1], y[n - 1]);
      MulXorRight(F, t, Dot(F, q, y, n - 1), F.Mul(q[n - 1], y[n - 1]));
    }
  }

  /** One coding row, seen as a row of reciprocals. */
  ghost function RecipRow(F: Field, i: nat, ys: seq<nat>): (rs: Row)
    requires IsField(F) && F.El(i) && Elements(F, ys) && i !in ys
    ensures AreRecips(F, i, ys, rs)
  {
    RecipsExist(F, i, ys);
    seq(|ys|, j requires 0 <= j < |ys| => Inv(F, Xor(i, ys[j])))
  }

  lemma RecipsExist(F: Field, i: nat, ys: seq<nat>)
    requires F.El(i) && Elements(F, ys) && i !in ys
    ensures forall j :: 0 <= j < |ys| ==> F.El(Xor(i, ys[j])) && Xor(i, ys[j]) != 0
  {
    forall j | 0 <= j < |ys| ensures F.El(Xor(i, ys[j])) && Xor(i, ys[j]) != 0 {
      ElXor(F, i, ys[j]);
      XorZero(i, ys[j]);
    }
  }

  /** An entry of the rescaled matrix times x is a * ((b * x) / (i + y)). */
  lemma EntryProduct(F: Field, d: nat, c: nat, a: nat, b: nat, x: nat, r: nat)
    requires F.w >= 1 && F.El(d) && F.El(c) && F.El(a) && F.El(b) && F.El(x) && F.El(r)
    requires F.Mul(d, r) == 1 && F.Mul(d, c) == F.Mul(a, b)
    ensures F.Mul(c, x) == F.Mul(a, F.Mul(F.Mul(b, x), r))
  {
    hide *;
    var bx := F.Mul(b, x);
    MulEl(F, b, x);
    MulEl(F, c, x);
    calc {
      F.Mul(a, F.Mul(bx, r));
      { MulAssoc(F, a, bx, r); MulAssoc(F, a, b, x); MulAssoc(F, d, c, x); }
      F.Mul(F.Mul(d, F.Mul(c, x)), r);
      { MulAssoc(F, d, F.Mul(c, x), r); MulRecip(F, d, F.Mul(c, x), r); }
      F.Mul(c, x);
    }
  }

  lemma EntryEquation(F: Field, C: seq<Row>, m: nat, k: nat, a: Row, b: Row, x: Row, i: nat, c: nat, r: nat)
    requires F.w >= 1 && ScaledCauchy(F, C, m, k, a, b) && Matrix(F, C, m, k) && Vec(F, x, k) && i < m && c < k
    requires F.El(r) && F.Mul(Xor(i, m + c), r) == 1
    ensures F.Mul(C[i][c], x[c]) == F.Mul(a[i], F.Mul(F.Mul(b[c], x[c]), r))
  {
    assert CauchyRow(F, C[i], i, m, k, a[i], b);
    assert F.El(i) && F.El(m + c);
    ElXor(F, i, m + c);
    EntryProduct(F, Xor(i, m + c), C[i][c], a[i], b[c], x[c], r);
  }

  /** The column values m + c of the lost columns. */
  function Columns(ids: seq<nat>, m: nat, k: nat): (ys: seq<nat>)
    ensures |ys| == |Lost(ids, k)| && forall j :: 0 <= j < |ys| ==> ys[j] == m + Lost(ids, k)[j]
  {
    seq(|Lost(ids, k)|, j requires 0 <= j < |Lost(ids, k)| => m + Lost(ids, k)[j])
  }

  /** The unknowns b[c] * x[c] of the lost columns. */
  function Unknowns(F: Field, ids: seq<nat>, k: nat, b: Row, x: Row): (vs: Row)
    requires F.w >= 1 && |b| == |x| == k
    ensures |vs| == |Lost(ids, k)|
    ensures forall j :: 0 <= j < |vs| ==> vs[j] == F.Mul(b[Lost(ids, k)[j]], x[Lost(ids, k)[j]])
  {
    seq(|Lost(ids, k)|, j requires 0 <= j < |Lost(ids, k)| => F.Mul(b[Lost(ids, k)[j]], x[Lost(ids, k)[j]]))
  }

  /** When coding row i sends x to zero, the unknowns divided by i + m + c sum to zero. */
  lemma LostEquation(F: Field, C: seq<Row>, m: nat, k: nat, a: Row, b: Row, ids: seq<nat>, x: Row, i: nat, rs: Row)
    requires IsField(F) && ScaledCauchy(F, C, m, k, a, b) && Matrix(F, C, m, k) && Vec(F, x, k) && i < m
    requires forall c: nat :: c < k && c in ids ==> x[c] == 0
    requires AreRecips(F, i, Columns(ids, m, k), rs)
    requires Dot(F, C[i], x, k) == 0
    ensures Dot(F, Unknowns(F, ids, k, b, x), rs, |rs|) == 0
  {
    var lost, vs := Lost(ids, k), Unknowns(F, ids, k, b, x);
    var p, y := Pick(C[i], lost), Pick(x, lost);
    assert F.El(a[i]) && a[i] != 0 && CauchyRow(F, C[i], i, m, k, a[i], b);
    DotLost(F, C[i], x, ids, k);
    hide Dot, Xor, ScaledCauchy;
    forall j | 0 <= j < |vs| ensures F.Mul(p[j], y[j]) == F.Mul(a[i], F.Mul(vs[j], rs[j])) {
      LostEntry(F, C, m, k, a, b, ids, x, i, rs, j);
    }
    SumIsZero(F, a[i], p, y, vs, rs, |vs|);
  }

  lemma LostEntry(F: Field, C: seq<Row>, m: nat, k: nat, a: Row, b: Row, ids: seq<nat>, x: Row, i: nat, rs: Row, j: nat)
    requires F.w >= 1 && ScaledCauchy(F, C, m, k, a, b) && Matrix(F, C, m, k) && Vec(F, x, k) && i < m
    requires AreRecips(F, i, Columns(ids, m, k), rs) && j < |Lost(ids, k)|
    ensures var c := Lost(ids, k)[j];
      F.Mul(C[i][c], x[c]) == F.Mul(a[i], F.Mul(Unknowns(F, ids, k, b, x)[j], rs[j]))
  {
    hide Xor, ScaledCauchy;
    RecipsAt(F, i, Columns(ids, m, k), rs, j);
    EntryEquation(F, C, m, k, a, b, x, i, Lost(ids, k)[j], rs[j]);
  }

  lemma RecipsAt(F: Field, x: nat, ys: seq<nat>, rs: Row, j: nat)
    requires F.w >= 1 && AreRecips(F, x, ys, rs) && j < |ys|
    ensures F.El(rs[j]) && F.Mul(Xor(x, ys[j]), rs[j]) == 1
  {
  }

  lemma SumIsZero(F: Field, t: nat, p: Row, x: Row, q: Row, y: Row, n: nat)
    requires IsField(F) && n == |p| == |x| == |q| == |y| && Elements(F, y) && F.El(t) && t != 0
    requires forall j :: 0 <= j < n ==> F.Mul(p[j], x[j]) == F.Mul(t, F.Mul(q[j], y[j]))
    requires Dot(F, p, x, n) == 0
    ensures Dot(F, q, y, n) == 0
  {
    DotProportional(F, t, p, x, q, y, n);
    DotEl(F, q, y, n);
    MulNonzero(F, t, Dot(F, q, y, n));
  }

  /** Enough coding rows survive to determine the lost columns. */
  lemma LostColumnsZero(F: Field, C: seq<Row>, m: nat, k: nat, a: Row, b: Row, ids: seq<nat>, x: Row)
    requires IsField(F) && ScaledCauchy(F, C, m, k, a, b) && Matrix(F, C, m, k) && Vec(F, x, k)
    requires Distinct(ids) && |ids| == k && forall i :: i in ids ==> i < k + m
    requires forall c: nat :: c < k && c in ids ==> x[c] == 0
    requires forall i: nat :: i < m && i + k in ids ==> Dot(F, C[i], x, k) == 0
    ensures forall c :: 0 <= c < k ==> x[c] == 0
  {
    hide *;
    var xs, ys := CodingRows(Members(ids), k), Columns(ids, m, k);
    FactorsNonzero(F, C, m, k, a, b);
    LostPoints(F, ids, m, k);
    var R := KernelRows(F, C, m, k, a, b, ids, x, xs);
    UnknownsVec(F, ids, k, b, x);
    KernelOfLost(F, xs, ys, R, Unknowns(F, ids, k, b, x));
    forall c: nat | c < k ensures x[c] == 0 {
      if c !in ids { UnknownZero(F, ids, k, b, x, c); }
    }
  }

  lemma FactorsNonzero(F: Field, C: seq<Row>, m: nat, k: nat, a: Row, b: Row)
    requires IsField(F) && ScaledCauchy(F, C, m, k, a, b)
    ensures F.w >= 1 && k + m <= Pow2(F.w) && |b| == k && Nonzero(F, b) && Vec(F, b, k)
  {
  }

  /** The surviving coding rows and the lost columns are points of a Cauchy matrix. */
  lemma LostPoints(F: Field, ids: seq<nat>, m: nat, k: nat)
    requires k + m <= Pow2(F.w) && Distinct(ids) && |ids| == k && forall i :: i in ids ==> i < k + m
    ensures CauchyPoints(F, CodingRows(Members(ids), k), Columns(ids, m, k))
    ensures forall i :: i in CodingRows(Members(ids), k) ==> i < m && i + k in ids
  {
    DistinctMembers(ids);
    LostCount(ids, k);
    CodingCount(Members(ids), k);
  }

  lemma KernelOfLost(F: Field, xs: set<nat>, ys: seq<nat>, R: map<nat, Row>, vs: Row)
    requires IsField(F) && CauchyPoints(F, xs, ys) && |vs| == |ys| && Elements(F, vs)
    requires forall i :: i in xs ==> i in R && KernelRow(F, i, ys, R[i], vs)
    ensures forall j :: 0 <= j < |vs| ==> vs[j] == 0
  {
    CauchyKernel(F, xs, ys, R, vs);
  }

  lemma UnknownZero(F: Field, ids: seq<nat>, k: nat, b: Row, x: Row, c: nat)
    requires IsField(F) && Vec(F, x, k) && |b| == k && Nonzero(F, b) && c < k && c !in ids
    requires var vs := Unknowns(F, ids, k, b, x); forall j :: 0 <= j < |vs| ==> vs[j] == 0
    ensures x[c] == 0
  {
    LostComplete(ids, k, c);
    var j :| 0 <= j < |Lost(ids, k)| && Lost(ids, k)[j] == c;
    assert Unknowns(F, ids, k, b, x)[j] == 0;
    MulNonzero(F, b[c], x[c]);
  }

  lemma UnknownsVec(F: Field, ids: seq<nat>, k: nat, b: Row, x: Row)
    requires F.w >= 1 && Vec(F, b, k) && Vec(F, x, k)
    ensures |b| == |x| == k && Elements(F, Unknowns(F, ids, k, b, x))
  {
    forall j | 0 <= j < |Lost(ids, k)| ensures F.El(Unknowns(F, ids, k, b, x)[j]) {
      MulEl(F, b[Lost(ids, k)[j]], x[Lost(ids, k)[j]]);
    }
  }

  /** `rs` is the row of reciprocals for the row value `i`, and `vs` solves its equation. */
  ghost predicate KernelRow(F: Field, i: nat, ys: seq<nat>, rs: Row, vs: Row)
    requires F.w >= 1
  {
    AreRecips(F, i, ys, rs) && |rs| == |vs| && Dot(F, vs, rs, |rs|) == 0
  }

  lemma ColumnElements(F: Field, C: seq<Row>, m: nat, k: nat, a: Row, b: Row, ids: seq<nat>, i: nat)
    requires F.w >= 1 && ScaledCauchy(F, C, m, k, a, b) && i < m
    ensures F.El(i) && Elements(F, Columns(ids, m, k)) && i !in Columns(ids, m, k)
  {
  }

  /** The surviving coding rows as rows of reciprocals; the unknowns are in their kernel. */
  lemma KernelRows(F: Field, C: seq<Row>, m: nat, k: nat, a: Row, b: Row, ids: seq<nat>, x: Row, xs: set<nat>)
    returns (R: map<nat, Row>)
    requires IsField(F) && ScaledCauchy(F, C, m, k, a, b) && Matrix(F, C, m, k) && Vec(F, x, k)
    requires forall c: nat :: c < k && c in ids ==> x[c] == 0
    requires forall i: nat :: i < m && i + k in ids ==> Dot(F, C[i], x, k) == 0
    requires forall i :: i in xs ==> i < m && i + k in ids
    ensures forall i :: i in xs ==> i in R && KernelRow(F, i, Columns(ids, m, k), R[i], Unknowns(F, ids, k, b, x))
  {
    hide Dot, Xor;
    var ys := Columns(ids, m, k);
    forall i | i in xs ensures F.El(i) && Elements(F, ys) && i !in ys {
      ColumnElements(F, C, m, k, a, b, ids, i);
    }
    R := map i | i in xs :: RecipRow(F, i, ys);
    forall i | i in xs ensures KernelRow(F, i, ys, RecipRow(F, i, ys), Unknowns(F, ids, k, b, x)) {
      hide ScaledCauchy, Unknowns, AreRecips;
      LostEquation(F, C, m, k, a, b, ids, x, i, RecipRow(F, i, ys));
      RecipRowLength(F, i, ys, RecipRow(F, i, ys));
    }
  }

  lemma RecipRowLength(F: Field, x: nat, ys: seq<nat>, rs: Row)
    requires F.w >= 1 && AreRecips(F, x, ys, rs)
    ensures |rs| == |ys|
  {
  }

  /** Main theorem: no selection of k devices out of k + m gives a singular matrix. */
  lemma AnyKRowsInvertible(F: Field, C: seq<Row>, m: nat, k: nat, a: Row, b: Row, ids: seq<nat>)
    requires IsField(F) && ScaledCauchy(F, C, m, k, a, b)
    requires Distinct(ids) && |ids| == k && forall i :: 0 <= i < k ==> ids[i] < k + m
    ensures Matrix(F, SurvivorMatrix(C, k, ids), k, k) && !Singular(F, SurvivorMatrix(C, k, ids), k)
  {
    var M := SurvivorMatrix(C, k, ids);
    CauchyMatrixElements(F, C, m, k, a, b);
    SurvivorMatrixElements(F, C, k, m, ids);
    if Singular(F, M, k) {
      var x, p :| Vec(F, x, k) && Kills(F, M, x, k) && 0 <= p < k && x[p] != 0;
      KernelEquations(F, C, m, k, ids, x);
      LostColumnsZero(F, C, m, k, a, b, ids, x);
    }
  }

  /** A choice of k different devices. */
  ghost predicate Selection(ids: seq<nat>, k: nat, m: nat) {
    Distinct(ids) && |ids| == k && forall i :: 0 <= i < |ids| ==> ids[i] < k + m
  }

  /** Any k of the k + m devices determine the data. */
  ghost predicate AnyKInvertible(F: Field, C: seq<Row>, m: nat, k: nat)
    requires F.w >= 1
  {
    Matrix(F, C, m, k) && forall ids: seq<nat> :: Selection(ids, k, m) ==> |C| == m && !Singular(F, SurvivorMatrix(C, k, ids), k)
  }

  lemma ScaledCauchyInvertible(F: Field, C: seq<Row>, m: nat, k: nat, a: Row, b: Row)
    requires IsField(F) && ScaledCauchy(F, C, m, k, a, b)
    ensures AnyKInvertible(F, C, m, k)
  {
    hide Singular;
    CauchyMatrixElements(F, C, m, k, a, b);
    forall ids: seq<nat> | Selection(ids, k, m) ensures |C| == m && !Singular(F, SurvivorMatrix(C, k, ids), k) {
      AnyKRowsInvertible(F, C, m, k, a, b, ids);
    }
  }

  /** What it means that the survivors' rows send x to zero. */
  lemma KernelEquations(F: Field, C: seq<Row>, m: nat, k: nat, ids: seq<nat>, x: Row)
    requires F.w >= 1 && Matrix(F, C, m, k) && Vec(F, x, k)
    requires |ids| == k && forall i :: 0 <= i < k ==> ids[i] < k + m
    requires Matrix(F, SurvivorMatrix(C, k, ids), k, k) && Kills(F, SurvivorMatrix(C, k, ids), x, k)
    ensures forall c: nat :: c < k && c in ids ==> x[c] == 0
    ensures forall i: nat :: i < m && i + k in ids ==> Dot(F, C[i], x, k) == 0
  {
    var M := SurvivorMatrix(C, k, ids);
    forall c: nat | c < k && c in ids ensures x[c] == 0 {
      var r :| 0 <= r < k && ids[r] == c;
      assert Dot(F, M[r], x, k) == 0;
      DotUnit(F, M[r], x, c, k);
    }
    forall i: nat | i < m && i + k in ids ensures Dot(F, C[i], x, k) == 0 {
      var r :| 0 <= r < k && ids[r] == i + k;
      assert Dot(F, M[r], x, k) == 0;
    }
  }
}
