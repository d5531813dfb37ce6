/** `cauchy_improve_coding_matrix`. */
module CauchyImprove {
  import opened Bits
  import opened Galois
  import opened LinearAlgebra
  import opened RowMajor
  import opened RowOperations
  import opened Elimination
  import opened CauchyMDS
  import opened CauchyMatrix
  import opened CauchyOnes
  import opened BitAlgebra
  import opened Bitmatrix
  import opened CauchyCounts

  /** The row itself for -1, or the row divided by its entry `j`. */
  ghost function Candidate(F: Field, row: Row, j: int): (c: Row)
    requires IsField(F) && Nonzero(F, row) && -1 <= j < |row|
    ensures |c| == |row|
  {
    if j == -1 then row else RowScale(F, Inv(F, row[j]), row)
  }

  /** Candidate `j` is the first of those with the fewest ones. */
  ghost predicate FirstBest(F: Field, row: Row, j: int)
    requires IsField(F) && Nonzero(F, row) && -1 <= j < |row|
  {
    && (forall l :: -1 <= l < |row| ==> RowOnes(F, Candidate(F, row, j)) <= RowOnes(F, Candidate(F, row, l)))
    && forall l :: -1 <= l < j ==> RowOnes(F, Candidate(F, row, j)) < RowOnes(F, Candidate(F, row, l))
  }

  /** `out` is the first candidate with the fewest ones. */
  ghost predicate BestVariant(F: Field, row: Row, out: Row)
    requires IsField(F) && Nonzero(F, row)
  {
    exists j :: -1 <= j < |row| && out == Candidate(F, row, j) && FirstBest(F, row, j)
  }

  lemma FieldWidth(F: Field)
    requires IsField(F)
    ensures F.w >= 1
  {
  }

  lemma InvOne(F: Field)
    requires IsField(F)
    ensures F.El(1) && Inv(F, 1) == 1
  {
    OneEl(F);
    MulOneLeft(F, Inv(F, 1));
  }

  lemma ScaleByOne(F: Field, row: Row)
    requires F.w >= 1 && Elements(F, row)
    ensures RowScale(F, 1, row) == row
  {
    forall j | 0 <= j < |row| ensures RowScale(F, 1, row)[j] == row[j] { MulOneRight(F, row[j]); }
  }

  // ----- the two passes, on arrays

  /** `matrix[i*k+j]` times `t`, for all rows. */
  method ScaleColumn(F: Field, a: array<nat>, m: nat, k: nat, j: nat, t: nat)
    requires F.w >= 1 && a.Length == Base(m, k) && j < k
    modifies a
    ensures Rows(a[..], m, k) == ColumnScaled(F, old(Rows(a[..], m, k)), j, t)
  {
    ghost var C: seq<Row> := Rows(a[..], m, k);
    var index, i: nat := j, 0;
    BaseStep(0, k);
    hide Base;
    while i < m
      invariant i <= m && index == Base(i, k) + j
      invariant forall r :: 0 <= r < i ==> Rows(a[..], m, k)[r] == C[r][j := F.Mul(C[r][j], t)]
      invariant forall r :: i <= r < m ==> Rows(a[..], m, k)[r] == C[r]
    {
      ghost var s := a[..];
      BaseBefore(i, m, k);
      BaseStep(i, k);
      assert RowOf(s, m, k, i) == C[i];
      a[index] := F.Mul(a[index], t);
      RowsUpdate(s, a[..], m, k, i);
      assert RowOf(a[..], m, k, i) == C[i][j := F.Mul(C[i][j], t)];
      index := index + k;
      i := i + 1;
    }
  }

  /** `bno`, or `tno` for the row multiplied by `t`. */
  method CountOnes(F: Field, a: array<nat>, m: nat, k: nat, i: nat, t: nat) returns (no: nat)
    requires F.w >= 1 && a.Length == Base(m, k) && i < m && F.El(t) && Elements(F, Rows(a[..], m, k)[i])
    ensures no == RowOnes(F, RowScale(F, t, Rows(a[..], m, k)[i]))
  {
    ghost var row := Rows(a[..], m, k)[i];
    no := 0;
    var x: nat := 0;
    while x < k
      invariant x <= k && no == EntryOnes(F, RowScale(F, t, row), x)
    {
      var e := At(a, m, k, i, x);
      MulEl(F, e, t);
      var n := NOnes(F, F.Mul(e, t));
      no := no + n;
      x := x + 1;
    }
  }

  lemma ScaledCandidate(F: Field, row: Row, j: nat)
    requires IsField(F) && Nonzero(F, row) && j < |row|
    ensures row[j] == 1 ==> Candidate(F, row, j) == row
    ensures Candidate(F, row, -1) == row && Candidate(F, row, j) == RowScale(F, Inv(F, row[j]), row)
  {
    InvOne(F);
    ScaleByOne(F, row);
  }

  /** `bno` or `tno`: the ones of candidate `j`. */
  method CandidateOnes(F: Field, a: array<nat>, m: nat, k: nat, i: nat, j: int, ghost row: Row) returns (no: nat)
    requires IsField(F) && a.Length == Base(m, k) && i < m && row == Rows(a[..], m, k)[i]
    requires Nonzero(F, row) && -1 <= j < |row|
    ensures no == RowOnes(F, Candidate(F, row, j))
  {
    hide RowOnes;
    OneEl(F);
    var tmp: nat := 1;
    if j == -1 {
      ScaleByOne(F, row);
    } else {
      var e := At(a, m, k, i, j);
      assert e == row[j];
      tmp := Div(F, 1, e);
      InverseUnique(F, e, tmp, Inv(F, e));
      ScaledCandidate(F, row, j);
    }
    no := CountOnes(F, a, m, k, i, tmp);
  }

  lemma RowItself(F: Field, row: Row)
    requires IsField(F) && Nonzero(F, row)
    ensures F.w >= 1 && Candidate(F, row, -1) == row
  {
  }

  /** Keep the better of the best candidate so far and candidate `j`. */
  method TryEntry(F: Field, a: array<nat>, m: nat, k: nat, i: nat, j: nat, best0: int, bno0: nat, ghost row: Row)
    returns (best: int, bno: nat)
    requires IsField(F) && a.Length == Base(m, k) && i < m && row == Rows(a[..], m, k)[i] && Nonzero(F, row)
    requires -1 <= best0 < |row| && j < |row| && bno0 == RowOnes(F, Candidate(F, row, best0)) <= RowOnes(F, row)
    ensures (best == best0 && bno == bno0) || (best == j && bno < bno0)
    ensures bno == RowOnes(F, Candidate(F, row, best))
    ensures bno <= bno0 && bno <= RowOnes(F, Candidate(F, row, j))
  {
    best, bno := best0, bno0;
    ScaledCandidate(F, row, j);
    hide RowOnes, Candidate, RowScale, Base;
    var e := At(a, m, k, i, j);
    if e != 1 {
      var tno := CandidateOnes(F, a, m, k, i, j, row);
      if tno < bno {
        best, bno := j, tno;
      }
    }
  }

  /** The entry to divide row `i` by, or -1 to leave the row as it is. */
  method BestEntry(F: Field, a: array<nat>, m: nat, k: nat, i: nat) returns (best: int)
    requires IsField(F) && a.Length == Base(m, k) && i < m && Nonzero(F, Rows(a[..], m, k)[i])
    ensures -1 <= best < k
    ensures var row := Rows(a[..], m, k)[i]; BestVariant(F, row, Candidate(F, row, best))
  {
    hide *;
    ghost var row: Row := Rows(a[..], m, k)[i];
    RowItself(F, row);
    var bno := CandidateOnes(F, a, m, k, i, -1, row);
    best := -1;
    var j: nat := 0;
    while j < k
      invariant j <= k && -1 <= best < j
      invariant bno == RowOnes(F, Candidate(F, row, best)) <= RowOnes(F, row)
      invariant forall l :: -1 <= l < j ==> bno <= RowOnes(F, Candidate(F, row, l))
      invariant forall l :: -1 <= l < best ==> bno < RowOnes(F, Candidate(F, row, l))
    {
      best, bno := TryEntry(F, a, m, k, i, j, best, bno, row);
      j := j + 1;
    }
    BestOf(F, row, best);
  }

  lemma BestOf(F: Field, row: Row, best: int)
    requires IsField(F) && Nonzero(F, row) && -1 <= best < |row|
    requires forall l :: -1 <= l < |row| ==> RowOnes(F, Candidate(F, row, best)) <= RowOnes(F, Candidate(F, row, l))
    requires forall l :: -1 <= l < best ==> RowOnes(F, Candidate(F, row, best)) < RowOnes(F, Candidate(F, row, l))
    ensures BestVariant(F, row, Candidate(F, row, best))
  {
  }

  /** Divide row `i` by its best entry. */
  method ImproveRow(F: Field, a: array<nat>, m: nat, k: nat, i: nat, ghost a0: Row, ghost b0: Row) returns (ghost a1: Row)
    requires IsField(F) && a.Length == Base(m, k) && ScaledCauchy(F, Rows(a[..], m, k), m, k, a0, b0) && i < m
    requires Nonzero(F, Rows(a[..], m, k)[i])
    modifies a
    ensures ScaledCauchy(F, Rows(a[..], m, k), m, k, a1, b0)
    ensures Rows(a[..], m, k) == old(Rows(a[..], m, k))[i := Rows(a[..], m, k)[i]]
    ensures BestVariant(F, old(Rows(a[..], m, k)[i]), Rows(a[..], m, k)[i])
  {
    hide *;
    FieldWidth(F);
    ghost var C: seq<Row> := Rows(a[..], m, k);
    ScaleFactors(F, C, m, k, a0, b0);
    a1 := a0;
    var best := BestEntry(F, a, m, k, i);
    RowItself(F, C[i]);
    if best != -1 {
      var e := At(a, m, k, i, best);
      EntryInverse(F, C[i], best);
      var tmp := Div(F, 1, e);
      QuotientIsInverse(F, e, tmp);
      RowScaledCauchy(F, C, m, k, a0, b0, i, tmp);
      ScaledCandidate(F, C[i], best);
      ScaleRow(F, a, m, k, i, tmp);
      a1 := a0[i := F.Mul(a0[i], tmp)];
    }
  }

  lemma ScaleFactors(F: Field, C: seq<Row>, m: nat, k: nat, a: Row, b: Row)
    requires F.w >= 1 && ScaledCauchy(F, C, m, k, a, b)
    ensures |a| == m && |b| == k
  {
  }

  lemma EntryInverse(F: Field, row: Row, j: nat)
    requires IsField(F) && Nonzero(F, row) && j < |row|
    ensures F.El(row[j]) && row[j] != 0 && F.El(1)
  {
    OneEl(F);
  }

  lemma QuotientIsInverse(F: Field, e: nat, t: nat)
    requires IsField(F) && F.El(e) && e != 0 && F.El(t) && F.Mul(e, t) == 1
    ensures t == Inv(F, e) && t != 0
  {
    MulZeroRight(F, e);
    InverseUnique(F, e, t, Inv(F, e));
  }

  /** Every row but the first is replaced by its best variant. */
  method ImproveRows(F: Field, a: array<nat>, m: nat, k: nat, ghost a0: Row, ghost b0: Row) returns (ghost a1: Row)
    requires IsField(F) && a.Length == Base(m, k) && ScaledCauchy(F, Rows(a[..], m, k), m, k, a0, b0) && m >= 1
    requires forall i :: 0 <= i < m ==> Nonzero(F, Rows(a[..], m, k)[i])
    modifies a
    ensures ScaledCauchy(F, Rows(a[..], m, k), m, k, a1, b0)
    ensures Rows(a[..], m, k)[0] == old(Rows(a[..], m, k)[0])
    ensures forall i :: 1 <= i < m ==> BestVariant(F, old(Rows(a[..], m, k)[i]), Rows(a[..], m, k)[i])
  {
    hide *;
    FieldWidth(F);
    ghost var C: seq<Row> := Rows(a[..], m, k);
    a1 := a0;
    var i: nat := 1;
    while i < m
      invariant 1 <= i <= m && F.w >= 1 && ScaledCauchy(F, Rows(a[..], m, k), m, k, a1, b0)
      invariant forall r :: 1 <= r < i ==> BestVariant(F, C[r], Rows(a[..], m, k)[r])
      invariant forall r :: 0 <= r < m && (r < 1 || r >= i) ==> Rows(a[..], m, k)[r] == C[r]
    {
      a1 := ImproveRow(F, a, m, k, i, a1, b0);
      i := i + 1;
    }
  }

  // ----- the first pass

  /** Every entry divided by the entry above it in the first row. */
  ghost predicate NormalizedBy(F: Field, C: seq<Row>, D: seq<Row>, m: nat, k: nat, j: nat)
    requires IsField(F)
  {
    && Matrix(F, C, m, k) && |D| == m && m >= 1 && Nonzero(F, C[0])
    && forall i: nat :: i < m ==> |D[i]| == k && forall c: nat :: c < k ==>
         D[i][c] == if c < j then F.Mul(C[i][c], Inv(F, C[0][c])) else C[i][c]
  }

  lemma NormalizeStep(F: Field, C: seq<Row>, D: seq<Row>, m: nat, k: nat, j: nat)
    requires IsField(F) && NormalizedBy(F, C, D, m, k, j) && j < k
    ensures D[0][j] == C[0][j] && F.El(C[0][j]) && C[0][j] != 0
    ensures forall i :: 0 <= i < |D| ==> |D[i]| == k
    ensures NormalizedBy(F, C, ColumnScaled(F, D, j, Inv(F, C[0][j])), m, k, j + 1)
    ensures D[0][j] == 1 ==> NormalizedBy(F, C, D, m, k, j + 1)
  {
    if D[0][j] == 1 {
      InvOne(F);
      forall i: nat | i < m ensures F.Mul(C[i][j], 1) == C[i][j] {
        assert Vec(F, C[i], k);
        MulOneRight(F, C[i][j]);
      }
    }
  }

  /** Divide each column by its entry in the first row. */
  method ImproveColumns(F: Field, a: array<nat>, m: nat, k: nat, ghost a0: Row, ghost b0: Row) returns (ghost b1: Row)
    requires IsField(F) && a.Length == Base(m, k) && m >= 1 && ScaledCauchy(F, Rows(a[..], m, k), m, k, a0, b0)
    requires Matrix(F, Rows(a[..], m, k), m, k) && Nonzero(F, Rows(a[..], m, k)[0])
    modifies a
    ensures ScaledCauchy(F, Rows(a[..], m, k), m, k, a0, b1)
    ensures NormalizedBy(F, old(Rows(a[..], m, k)), Rows(a[..], m, k), m, k, k)
  {
    ghost var C: seq<Row> := Rows(a[..], m, k);
    StartNormalized(F, C, m, k);
    b1 := b0;
    var j: nat := 0;
    hide *;
    while j < k
      invariant j <= k && F.w >= 1 && ScaledCauchy(F, Rows(a[..], m, k), m, k, a0, b1)
      invariant NormalizedBy(F, C, Rows(a[..], m, k), m, k, j)
    {
      ghost var D: seq<Row> := Rows(a[..], m, k);
      NormalizeStep(F, C, D, m, k, j);
      ScaleFactors(F, D, m, k, a0, b1);
      var e := At(a, m, k, 0, j);
      if e != 1 {
        var tmp := DivideOne(F, e);
        CauchyMatrixElements(F, D, m, k, a0, b1);
        ColumnScaledCauchy(F, D, m, k, a0, b1, j, tmp);
        ScaleColumn(F, a, m, k, j, tmp);
        b1 := b1[j := F.Mul(b1[j], tmp)];
      }
      j := j + 1;
    }
  }

  lemma StartNormalized(F: Field, C: seq<Row>, m: nat, k: nat)
    requires IsField(F) && Matrix(F, C, m, k) && m >= 1 && Nonzero(F, C[0])
    ensures NormalizedBy(F, C, C, m, k, 0)
  {
    forall i: nat | i < m ensures |C[i]| == k { assert Vec(F, C[i], k); }
  }

  method DivideOne(F: Field, e: nat) returns (t: nat)
    requires IsField(F) && F.El(e) && e != 0
    ensures F.El(t) && t != 0 && t == Inv(F, e)
  {
    OneEl(F);
    t := Div(F, 1, e);
    QuotientIsInverse(F, e, t);
  }

  // ----- the routine

  /** No entry of a rescaled Cauchy matrix is zero. */
  lemma EntriesNonzero(F: Field, C: seq<Row>, m: nat, k: nat, a: Row, b: Row)
    requires IsField(F) && ScaledCauchy(F, C, m, k, a, b)
    ensures forall i :: 0 <= i < m ==> Nonzero(F, C[i])
  {
    hide Xor, Field.Mul, HasInverse, Pow2;
    forall i | 0 <= i < m ensures Nonzero(F, C[i]) {
      assert CauchyRow(F, C[i], i, m, k, a[i], b) && F.El(a[i]) && a[i] != 0;
      forall j | 0 <= j < k ensures F.El(C[i][j]) && C[i][j] != 0 {
        EntryNonzero(F, Xor(i, m + j), C[i][j], a[i], b[j]);
      }
    }
  }

  lemma EntryNonzero(F: Field, d: nat, c: nat, a: nat, b: nat)
    requires IsField(F) && F.El(a) && a != 0 && F.El(b) && b != 0 && F.Mul(d, c) == F.Mul(a, b)
    ensures c != 0
  {
    hide HasInverse;
    MulZeroRight(F, d);
    MulNonzero(F, a, b);
  }

  /** The first row is all ones once it has been divided by itself. */
  lemma FirstRowOnes(F: Field, C: seq<Row>, D: seq<Row>, m: nat, k: nat)
    requires IsField(F) && NormalizedBy(F, C, D, m, k, k)
    ensures D[0] == AllOnes(k)
  {
  }

  // ----- what is left at the end

  /** `out` is `t` times the row divided, entry by entry, by the first row. */
  ghost predicate Rescaled(F: Field, first: Row, row: Row, out: Row, t: nat) {
    && F.w >= 1 && |first| == |row| && Vec(F, out, |row|) && F.El(t) && t != 0
    && forall c: nat :: c < |row| ==> F.Mul(out[c], first[c]) == F.Mul(t, row[c])
  }

  /** The row divided by the first row, as it is or brought to have an entry 1. */
  ghost predicate Variant(F: Field, first: Row, row: Row, out: Row) {
    exists t: nat :: Rescaled(F, first, row, out, t) && (t == 1 || 1 in out)
  }

  /** The row as it is comes before the others, and these come in the order of their first entry 1. */
  ghost predicate NotAfter(F: Field, first: Row, row: Row, out: Row, other: Row)
    requires |out| == |other|
  {
    || Rescaled(F, first, row, out, 1)
    || (!Rescaled(F, first, row, other, 1) && forall p :: 0 <= p < |other| && other[p] == 1 ==> 1 in out[..p + 1])
  }

  ghost predicate Preferred(F: Field, first: Row, row: Row, out: Row, other: Row)
    requires F.w >= 1
  {
    && |other| == |out| && RowOnes(F, out) <= RowOnes(F, other)
    && (RowOnes(F, out) == RowOnes(F, other) ==> NotAfter(F, first, row, out, other))
  }

  /** The first of the variants of the row with the fewest ones. */
  ghost predicate FewestOnes(F: Field, first: Row, row: Row, out: Row) {
    && F.w >= 1 && Variant(F, first, row, out)
    && forall other :: Variant(F, first, row, other) ==> Preferred(F, first, row, out, other)
  }

  /** `D` is `C` with its columns divided by the first row and each later row at its best variant. */
  ghost predicate Improved(F: Field, C: seq<Row>, D: seq<Row>, m: nat, k: nat) {
    |C| == |D| == m >= 1 && D[0] == AllOnes(k) && forall i :: 1 <= i < m ==> FewestOnes(F, C[0], C[i], D[i])
  }

  lemma Quotient(F: Field, o: nat, f: nat, t: nat, r: nat)
    requires IsField(F) && F.El(o) && F.El(f) && f != 0 && F.El(t) && F.El(r)
    ensures F.Mul(o, f) == F.Mul(t, r) <==> o == F.Mul(t, F.Mul(r, Inv(F, f)))
  {
    var i := Inv(F, f);
    hide *;
    OneEl(F);
    MulAssoc(F, t, r, i);
    if F.Mul(o, f) == F.Mul(t, r) {
      MulAssoc(F, o, f, i);
      MulOneRight(F, o);
    } else if o == F.Mul(t, F.Mul(r, i)) {
      MulEl(F, t, r);
      MulAssoc(F, F.Mul(t, r), i, f);
      MulComm(F, i, f);
      MulOneRight(F, F.Mul(t, r));
      assert false;
    }
  }

  /** `e` is the row divided by the first row. */
  ghost predicate Divided(F: Field, first: Row, row: Row, e: Row)
    requires IsField(F)
  {
    && Nonzero(F, first) && Elements(F, row) && |first| == |row| == |e| && Nonzero(F, e)
    && forall c: nat :: c < |row| ==> e[c] == F.Mul(row[c], Inv(F, first[c]))
  }

  lemma RescaledIsMultiple(F: Field, first: Row, row: Row, e: Row, out: Row, t: nat)
    requires IsField(F) && Divided(F, first, row, e) && Vec(F, out, |row|) && F.El(t) && t != 0
    ensures Rescaled(F, first, row, out, t) <==> out == RowScale(F, t, e)
  {
    hide Inv, HasInverse;
    forall c: nat | c < |row|
      ensures F.Mul(out[c], first[c]) == F.Mul(t, row[c]) <==> out[c] == F.Mul(e[c], t)
    {
      Quotient(F, out[c], first[c], t, row[c]);
      MulComm(F, t, e[c]);
    }
  }

  lemma CandidateIsVariant(F: Field, first: Row, row: Row, e: Row, j: int)
    requires IsField(F) && Divided(F, first, row, e) && -1 <= j < |e|
    ensures Variant(F, first, row, Candidate(F, e, j))
    ensures if j == -1 then Rescaled(F, first, row, Candidate(F, e, j), 1) else Candidate(F, e, j)[j] == 1
  {
    var out, t := Candidate(F, e, j), if j == -1 then 1 else Inv(F, e[j]);
    InvOne(F);
    ScaleByOne(F, e);
    RowScaleElements(F, t, e);
    if j >= 0 {
      MulZeroRight(F, e[j]);
      assert out[j] == 1;
    }
    RescaledIsMultiple(F, first, row, e, out, t);
  }

  lemma RescaledIsCandidate(F: Field, first: Row, row: Row, e: Row, out: Row, t: nat, j: int)
    requires IsField(F) && Divided(F, first, row, e) && Rescaled(F, first, row, out, t) && -1 <= j < |e|
    requires if j == -1 then t == 1 else out[j] == 1
    ensures out == Candidate(F, e, j)
  {
    RescaledIsMultiple(F, first, row, e, out, t);
    if j == -1 {
      ScaleByOne(F, e);
    } else {
      InverseUnique(F, e[j], t, Inv(F, e[j]));
    }
  }

  lemma BestIsFewest(F: Field, first: Row, row: Row, e: Row, out: Row)
    requires IsField(F) && Divided(F, first, row, e) && BestVariant(F, e, out)
    ensures FewestOnes(F, first, row, out)
  {
    hide Divided, RowOnes, Candidate, FirstBest, Rescaled;
    assert Nonzero(F, e) && |e| == |row| by { DividedNonzero(F, first, row, e); }
    var j :| -1 <= j < |e| && out == Candidate(F, e, j) && FirstBest(F, e, j);
    CandidateIsVariant(F, first, row, e, j);
    forall other | Variant(F, first, row, other) ensures Preferred(F, first, row, out, other) {
      BestAgainst(F, first, row, e, j, other);
    }
  }

  /** The first best candidate against any variant. */
  lemma BestAgainst(F: Field, first: Row, row: Row, e: Row, j: int, other: Row)
    requires IsField(F) && Divided(F, first, row, e) && Nonzero(F, e) && -1 <= j < |e| && FirstBest(F, e, j) && Variant(F, first, row, other)
    ensures Preferred(F, first, row, Candidate(F, e, j), other)
  {
    hide Divided, RowOnes, Candidate, Rescaled;
    var out := Candidate(F, e, j);
    var t: nat :| Rescaled(F, first, row, other, t) && (t == 1 || 1 in other);
    assert |other| == |e| by { RescaledLength(F, first, row, e, other, t); }
    CandidateIsVariant(F, first, row, e, j);
    if t == 1 {
      RescaledIsCandidate(F, first, row, e, other, t, -1);
    } else {
      var p :| 0 <= p < |other| && other[p] == 1;
      RescaledIsCandidate(F, first, row, e, other, t, p);
    }
    if j != -1 && RowOnes(F, out) == RowOnes(F, other) {
      if Rescaled(F, first, row, other, 1) {
        RescaledIsCandidate(F, first, row, e, other, 1, -1);
        assert false;
      }
      forall p | 0 <= p < |other| && other[p] == 1 ensures 1 in out[..p + 1] {
        RescaledIsCandidate(F, first, row, e, other, t, p);
        assert out[..p + 1][j] == 1;
      }
    }
  }

  lemma RescaledLength(F: Field, first: Row, row: Row, e: Row, out: Row, t: nat)
    requires IsField(F) && Divided(F, first, row, e) && Rescaled(F, first, row, out, t)
    ensures |out| == |e|
  {
  }

  lemma DividedNonzero(F: Field, first: Row, row: Row, e: Row)
    requires IsField(F) && Divided(F, first, row, e)
    ensures Nonzero(F, e) && |e| == |row|
  {
  }

  method ImproveCodingMatrix(F: Field, k: nat, m: nat, a: array<nat>, ghost a0: Row, ghost b0: Row)
    returns (ghost a1: Row, ghost b1: Row)
    requires IsField(F) && a.Length == Base(m, k) && m >= 1 && ScaledCauchy(F, Rows(a[..], m, k), m, k, a0, b0)
    modifies a
    ensures ScaledCauchy(F, Rows(a[..], m, k), m, k, a1, b1)
    ensures Improved(F, old(Rows(a[..], m, k)), Rows(a[..], m, k), m, k)
  {
    hide *;
    FieldWidth(F);
    ghost var C: seq<Row> := Rows(a[..], m, k);
    EntriesNonzero(F, C, m, k, a0, b0);
    CauchyMatrixElements(F, C, m, k, a0, b0);
    b1 := ImproveColumns(F, a, m, k, a0, b0);
    ghost var E: seq<Row> := Rows(a[..], m, k);
    EntriesNonzero(F, E, m, k, a0, b1);
    FirstRowOnes(F, C, E, m, k);
    a1 := ImproveRows(F, a, m, k, a0, b1);
    IsImproved(F, C, E, Rows(a[..], m, k), m, k);
  }

  lemma IsImproved(F: Field, C: seq<Row>, E: seq<Row>, D: seq<Row>, m: nat, k: nat)
    requires IsField(F) && m >= 1 && NormalizedBy(F, C, E, m, k, k) && |D| == m && D[0] == E[0] == AllOnes(k)
    requires forall i :: 1 <= i < m ==> Nonzero(F, E[i]) && BestVariant(F, E[i], D[i])
    ensures Improved(F, C, D, m, k)
  {
    forall i: nat | 1 <= i < m ensures FewestOnes(F, C[0], C[i], D[i]) {
      NormalizedRow(F, C, E, m, k, i);
      BestIsFewest(F, C[0], C[i], E[i], D[i]);
    }
  }

  lemma NormalizedRow(F: Field, C: seq<Row>, E: seq<Row>, m: nat, k: nat, i: nat)
    requires IsField(F) && NormalizedBy(F, C, E, m, k, k) && i < m && Nonzero(F, E[i])
    ensures Divided(F, C[0], C[i], E[i])
  {
    assert Vec(F, C[0], k) && Vec(F, C[i], k);
  }

  /** The choice in terms of the bit matrices: no other variant of row `i` has fewer ones in its rows of bits. */
  lemma FewestBits(F: Field, C: seq<Row>, D: seq<Row>, D': seq<Row>, m: nat, k: nat, B: seq<BitRow>, B': seq<BitRow>, i: nat)
    requires F.w >= 1 && Improved(F, C, D, m, k) && 1 <= i < m && Matrix(F, D, m, k) && Matrix(F, D', m, k)
    requires IsBitmatrix(F, D, m, k, B) && IsBitmatrix(F, D', m, k, B') && Variant(F, C[0], C[i], D'[i])
    ensures Base(i, F.w) + F.w <= |B| && forall l :: 0 <= l < |B| ==> Base(k, F.w) <= |B[l]|
    ensures Base(i, F.w) + F.w <= |B'| && forall l :: 0 <= l < |B'| ==> Base(k, F.w) <= |B'[l]|
    ensures BlockCount(B, Base(i, F.w), 0, F.w, Base(k, F.w)) <= BlockCount(B', Base(i, F.w), 0, F.w, Base(k, F.w))
  {
    hide RowOnes, BlockCount, IsBitmatrix, Variant;
    assert FewestOnes(F, C[0], C[i], D[i]);
    RowOnesCounted(F, D, m, k, B, i);
    RowOnesCounted(F, D', m, k, B', i);
  }

  /** The general branch of `cauchy_good_general_coding_matrix`. */
  method ImprovedOriginalMatrix(F: Field, k: nat, m: nat)
    returns (matrix: array?<nat>, ghost C: seq<Row>, ghost a: Row, ghost b: Row)
    requires IsField(F) && m >= 1
    requires F.w >= 31 ==> k + m <= Pow2(F.w)
    ensures matrix == null <==> F.w < 31 && k + m > Pow2(F.w)
    ensures matrix != null ==> matrix.Length == Base(m, k)
    ensures matrix != null ==> ScaledCauchy(F, Rows(matrix[..], m, k), m, k, a, b)
    ensures matrix != null ==> Reciprocals(F, C, m, k) && Improved(F, C, Rows(matrix[..], m, k), m, k)
  {
    hide Reciprocals, Improved, ScaledCauchy;
    matrix := OriginalCodingMatrix(F, k, m);
    C, a, b := [], AllOnes(m), AllOnes(k);
    if matrix != null {
      C := Rows(matrix[..], m, k);
      a, b := ImproveCodingMatrix(F, k, m, matrix, a, b);
    }
  }
}
