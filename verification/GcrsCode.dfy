/** `gcrs_create_bitmatrix`: the code of the recovery path, the plain Cauchy matrix as bits. */
module GcrsCode {
  import opened Bits
  import opened Galois
  import opened LinearAlgebra
  import opened RowMajor
  import opened Elimination
  import opened Devices
  import opened CauchyMDS
  import opened CauchyMatrix
  import opened CauchyDecode
  import opened BitAlgebra
  import opened Bitmatrix
  import opened Erasures
  import opened PacketOps
  import opened BitDecoding
  import opened GcrsVector
  import opened GcrsCreate
  import opened CauchyBits

  method CreateBitmatrix(F: Field, k: nat, m: nat) returns (bitmatrix: array?<bool>, ghost C: seq<Row>)
    requires IsField(F) && k + m <= Pow2(F.w)
    ensures bitmatrix == null <==> !(MIN_K <= k <= MAX_K && m <= k)
    ensures bitmatrix != null ==> bitmatrix.Length == Base(Base(m, F.w), Base(k, F.w)) && AnyKInvertible(F, C, m, k)
    ensures bitmatrix != null ==> IsBitmatrix(F, C, m, k, Rows(bitmatrix[..], Base(m, F.w), Base(k, F.w)))
    ensures bitmatrix != null ==> |C| == m && forall i :: 0 <= i < m ==> HasNonzero(C[i])
    ensures bitmatrix != null ==> Reciprocals(F, C, m, k)
  {
    hide Base, ScaledCauchy, Singular, AnyKInvertible, HasInverse, Pow2, HasNonzero, IsBitmatrix, Reciprocals;
    var check := CheckKMW(k, m, F.w);
    C := [];
    if check < 0 { return null, C; }
    var a := OriginalCodingMatrix(F, k, m);
    var matrix: array<nat> := a;
    C := Rows(matrix[..], m, k);
    CauchyMatrixElements(F, C, m, k, AllOnes(m), AllOnes(k));
    ScaledCauchyInvertible(F, C, m, k, AllOnes(m), AllOnes(k));
    if m >= 1 { NoZeroRow(F, C, k, m, AllOnes(m), AllOnes(k)); }
    bitmatrix := MatrixToBitmatrix(F, k, m, matrix);
  }

  /** Recovery with this code: for every loss of at most m devices, what `CreateDecodingBitmatrix`
      leaves behind gives every packet of every lost device from the survivors.  When only parity is
      lost, `dm_ids` is not written, and the survivors are the data devices. */
  lemma EveryLossRecovered(F: Field, C: seq<Row>, k: nat, m: nat, B: seq<BitRow>, e: seq<bool>, matIdx: seq<nat>, dmIds: seq<nat>,
      dec: array<bool>, orig: Packets, r: nat, y: nat)
    requires F.w >= 1 && AnyKInvertible(F, C, m, k) && IsBitmatrix(F, C, m, k, B) && BitCodeword(B, k, m, F.w, orig)
    requires Result(k, m, F.w, B, e, matIdx, dmIds, dec) && r < |LostIds(e)| && y < F.w
    ensures matIdx[r] == LostIds(e)[r] && (forall i :: 0 <= i < k ==> FirstAlive(e, k)[i] < k + m)
    ensures if Flagged(e, true, 0, k) != [] then dmIds == FirstAlive(e, k) else FirstAlive(e, k) == DataIds(k)
    ensures Base(r, F.w) + y < Base(m, F.w) && Base(matIdx[r], F.w) + y < |orig| == Base(k + m, F.w)
    ensures Select(Rows(dec[..], Base(m, F.w), Base(k, F.w))[Base(r, F.w) + y], Through(orig, FirstAlive(e, k), k + m, F.w), Base(k, F.w))
      == orig[Base(matIdx[r], F.w) + y]
  {
    hide Base, Singular, AnyKInvertible, IsBitmatrix, Through, Select, LostIds, Flagged, FirstBits;
    RecoveryNeverSingular(F, C, m, k, B, e);
    BlockRebuildsDevice(Rows(dec[..], Base(m, F.w), Base(k, F.w)), B, k, m, F.w, e, orig, r, y);
    assert matIdx[..|LostIds(e)|][r] == LostIds(e)[r];
    if Flagged(e, true, 0, k) == [] { AllDataAlive(e, k); }
  }

  /** Seen from the lost device: it has its block row. */
  lemma LostDeviceRecovered(F: Field, C: seq<Row>, k: nat, m: nat, B: seq<BitRow>, e: seq<bool>, matIdx: seq<nat>, dmIds: seq<nat>,
      dec: array<bool>, orig: Packets, d: nat, y: nat) returns (r: nat)
    requires F.w >= 1 && AnyKInvertible(F, C, m, k) && IsBitmatrix(F, C, m, k, B) && BitCodeword(B, k, m, F.w, orig)
    requires Result(k, m, F.w, B, e, matIdx, dmIds, dec) && d < |e| && e[d] && y < F.w
    ensures r < |matIdx| && matIdx[r] == d && (forall i :: 0 <= i < k ==> FirstAlive(e, k)[i] < k + m)
    ensures Base(r, F.w) + y < Base(m, F.w) && Base(d, F.w) + y < |orig| == Base(k + m, F.w)
    ensures Select(Rows(dec[..], Base(m, F.w), Base(k, F.w))[Base(r, F.w) + y], Through(orig, FirstAlive(e, k), k + m, F.w), Base(k, F.w))
      == orig[Base(d, F.w) + y]
  {
    hide Base, Singular, AnyKInvertible, IsBitmatrix, Through, Select, LostIds, Flagged, FirstBits;
    LostStep(e, d);
    r := |Flagged(e, true, 0, d)|;
    EveryLossRecovered(F, C, k, m, B, e, matIdx, dmIds, dec, orig, r, y);
  }
}
