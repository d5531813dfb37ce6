/** `jerasure_make_decoding_matrix` (and its copy `grs_create_decoding_data_matrix`): the survivors'
    rows of [I; C] are collected and inverted. */
module DecodingMatrix {
  import opened Galois
  import opened LinearAlgebra
  import opened RowMajor
  import opened Elimination
  import opened Survivors
  import opened JerasureInvert
  import opened Erasures

  /** A unit row for a data device. */
  method WriteUnitRow(a: array<nat>, start: nat, k: nat, id: nat)
    requires start + k <= a.Length && id < k
    modifies a
    ensures a[start..start + k] == UnitRow(k, id)
    ensures forall p :: 0 <= p < a.Length && !(start <= p < start + k) ==> a[p] == old(a[p])
  {
    var j: nat := 0;
    while j < k
      invariant j <= k && forall p :: start <= p < start + j ==> a[p] == 0
      invariant forall p :: 0 <= p < a.Length && !(start <= p < start + j) ==> a[p] == old(a[p])
    {
      a[start + j] := 0;
      j := j + 1;
    }
    a[start + id] := 1;
  }

  /** The row of a coding device. */
  method CopyRow(a: array<nat>, start: nat, k: nat, matrix: array<nat>, from: nat)
    requires a != matrix && start + k <= a.Length && from + k <= matrix.Length
    modifies a
    ensures a[start..start + k] == matrix[from..from + k]
    ensures forall p :: 0 <= p < a.Length && !(start <= p < start + k) ==> a[p] == old(a[p])
  {
    var j: nat := 0;
    while j < k
      invariant j <= k && forall p :: start <= p < start + j ==> a[p] == matrix[p - start + from]
      invariant forall p :: 0 <= p < a.Length && !(start <= p < start + j) ==> a[p] == old(a[p])
    {
      a[start + j] := matrix[from + j];
      j := j + 1;
    }
  }

  method CollectRows(k: nat, m: nat, matrix: array<nat>, dmIds: array<nat>, tmpmat: array<nat>)
    requires matrix.Length == Base(m, k) && dmIds.Length == k && tmpmat.Length == Base(k, k)
    requires tmpmat != matrix && tmpmat != dmIds
    requires forall i :: 0 <= i < k ==> dmIds[i] < k + m
    modifies tmpmat
    ensures Rows(tmpmat[..], k, k) == SurvivorMatrix(Rows(matrix[..], m, k), k, dmIds[..])
  {
    hide Base, Rows, UnitRow, SurvivorMatrix, Distinct;
    ghost var C := Rows(matrix[..], m, k);
    var i: nat := 0;
    while i < k
      invariant i <= k
      invariant forall r: nat :: r < i ==> Rows(tmpmat[..], k, k)[r] == DeviceRow(C, k, dmIds[r])
    {
      ghost var s := tmpmat[..];
      BaseBefore(i, k, k);
      if dmIds[i] < k {
        WriteUnitRow(tmpmat, Base(i, k), k, dmIds[i]);
      } else {
        BaseBefore(dmIds[i] - k, m, k);
        CopyRow(tmpmat, Base(i, k), k, matrix, Base(dmIds[i] - k, k));
        assert RowOf(matrix[..], m, k, dmIds[i] - k) == C[dmIds[i] - k];
      }
      RowsUpdate(s, tmpmat[..], k, k, i);
      assert RowOf(tmpmat[..], k, k, i) == DeviceRow(C, k, dmIds[i]);
      i := i + 1;
    }
  }

  /** What a call of the routine leaves behind. */
  ghost predicate Decodes(F: Field, C: seq<Row>, k: nat, m: nat, ids: seq<nat>, inv: seq<Row>)
    requires F.w >= 1
  {
    && |C| == m && |ids| == k && Distinct(ids) && (forall i :: 0 <= i < k ==> ids[i] < k + m)
    && Matrix(F, SurvivorMatrix(C, k, ids), k, k) && Matrix(F, inv, k, k)
    && LeftInverse(F, inv, SurvivorMatrix(C, k, ids), k)
  }

  /** Returns 0 and the inverse of the survivor matrix, or -1 exactly when that matrix is singular. */
  method MakeDecodingMatrix(F: Field, k: nat, m: nat, matrix: array<nat>, erased: array<bool>,
                            decoding: array<nat>, dmIds: array<nat>) returns (r: int)
    requires IsField(F) && matrix.Length == Base(m, k) && Matrix(F, Rows(matrix[..], m, k), m, k)
    requires erased.Length == k + m && |Alive(erased[..], k + m)| >= k
    requires decoding.Length == Base(k, k) && dmIds.Length == k
    requires matrix != decoding && matrix != dmIds && decoding != dmIds
    modifies decoding, dmIds
    ensures dmIds[..] == FirstAlive(erased[..], k)
    ensures r == 0 || r == -1
    ensures var C := Rows(matrix[..], m, k); var S := SurvivorMatrix(C, k, dmIds[..]);
      && Matrix(F, S, k, k) && (r == -1 <==> Singular(F, S, k))
      && (r == 0 ==> Decodes(F, C, k, m, dmIds[..], Rows(decoding[..], k, k)))
  {
    ChooseSurvivors(k, erased, dmIds);
    var tmpmat := new nat[Base(k, k)];
    CollectRows(k, m, matrix, dmIds, tmpmat);
    SurvivorMatrixElements(F, Rows(matrix[..], m, k), k, m, dmIds[..]);
    r := InvertMatrix(F, tmpmat, decoding, k);
  }
}
