/** Decoding with the generated coding matrix: only the word size and the number of lost devices
    can make it fail. */
module CauchyDecode {
  import opened Galois
  import opened LinearAlgebra
  import opened Elimination
  import opened Survivors
  import opened Devices
  import opened CauchyMDS
  import opened CauchyImprove
  import opened Erasures
  import opened MatrixDecode

  /** With a coding matrix for which any k devices determine the data, decoding fails only for an
      unsupported word size or for more than m different lost devices. */
  lemma OnlyTooManyLossesFail(F: Field, C: seq<Row>, k: nat, m: nat, rowKOnes: bool, erasures: seq<nat>)
    requires IsField(F) && m >= 1 && AnyKInvertible(F, C, m, k)
    requires forall i :: 0 <= i < |erasures| ==> erasures[i] < k + m
    ensures Fails(F, C, k, m, rowKOnes, erasures) <==> !WordSize(F.w) || |Members(erasures)| > m
  {
    hide FirstAlive, Singular, Matrix, IsField;
    if |Members(erasures)| <= m {
      var e := Flags(erasures, k + m);
      EnoughAlive(erasures, k, m, e);
      assert Selection(FirstAlive(e, k), k, m);
    }
  }

  lemma NoZeroRow(F: Field, C: seq<Row>, k: nat, m: nat, a: Row, b: Row)
    requires IsField(F) && m >= 1 && k >= 1 && ScaledCauchy(F, C, m, k, a, b)
    ensures F.w >= 1 && Matrix(F, C, m, k) && forall i :: 0 <= i < m ==> HasNonzero(C[i])
  {
    CauchyMatrixElements(F, C, m, k, a, b);
    EntriesNonzero(F, C, m, k, a, b);
    forall i | 0 <= i < m ensures HasNonzero(C[i]) {
      assert Nonzero(F, C[i]) && Vec(F, C[i], k);
      assert C[i][0] != 0;
    }
  }
}
