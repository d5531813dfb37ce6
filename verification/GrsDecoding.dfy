/** `grs_create_decoding_matrix` over GF(2^w), for lost data devices: the rows of the inverse that
    rebuild them, in ascending order of the devices. */
module GrsDecoding {
  import opened FiniteSets
  import opened Galois
  import opened LinearAlgebra
  import opened RowMajor
  import opened Elimination
  import opened Survivors
  import opened Devices
  import opened Erasures
  import opened DecodingMatrix
  import opened MatrixDecode
  import opened CauchyMDS
  import opened GcrsCreate

  /** The first `n` rows are those of the inverse for the first `n` lost devices. */
  ghost predicate Copied(dec: seq<Row>, inv: seq<Row>, lost: seq<nat>, n: nat) {
    n <= |lost| && n <= |dec| && forall r :: 0 <= r < n ==> lost[r] < |inv| && dec[r] == inv[lost[r]]
  }

  /** `memcpy` the rows of the lost data devices and note their numbers. */
  method CopyLostRows(k: nat, m: nat, inverse: array<nat>, dec: array<nat>, erases: array<bool>, matIdx: array<nat>) returns (n: nat)
    requires inverse.Length == Base(k, k) && dec.Length == Base(m, k) && erases.Length == k + m
    requires dec != inverse && dec != matIdx && inverse != matIdx && |LostIds(erases[..])| <= m <= matIdx.Length
    requires forall d :: k <= d < k + m ==> !erases[d]
    modifies dec, matIdx
    ensures n == |LostIds(erases[..])| && matIdx[..n] == LostIds(erases[..])
    ensures Copied(Rows(dec[..], m, k), Rows(inverse[..], k, k), LostIds(erases[..]), n)
  {
    hide Base, Rows, LostIds, Flagged;
    ghost var e, V: seq<Row> := erases[..], Rows(inverse[..], k, k);
    NoneLost(e);
    n := 0;
    var d: nat := 0;
    while d < k
      invariant d <= k && n == |Flagged(e, true, 0, d)| <= |LostIds(e)| && matIdx[..n] == LostIds(e)[..n]
      invariant inverse[..] == old(inverse[..]) && Copied(Rows(dec[..], m, k), V, LostIds(e), n)
    {
      LostStep(e, d);
      if erases[d] {
        ghost var s := dec[..];
        matIdx[n] := d;
        BaseBefore(d, k, k);
        BaseBefore(n, m, k);
        CopyRow(dec, Base(n, k), k, inverse, Base(d, k));
        RowsUpdate(s, dec[..], m, k, n);
        assert RowOf(dec[..], m, k, n) == RowOf(inverse[..], k, k, d);
        n := n + 1;
      }
      d := d + 1;
    }
    NoneLostBehind(e, k);
  }

  lemma NoneLost(e: seq<bool>)
    ensures Flagged(e, true, 0, 0) == []
  {
  }

  lemma NoneLostBehind(e: seq<bool>, k: nat)
    requires k <= |e| && forall d :: k <= d < |e| ==> !e[d]
    ensures Flagged(e, true, 0, k) == LostIds(e)
  {
    FlaggedSplit(e, true, 0, k, |e|);
    NoneFlaggedBetween(e, k, |e|);
  }

  lemma {:induction false} NoneFlaggedBetween(e: seq<bool>, lo: nat, hi: nat)
    requires lo <= hi <= |e| && forall d :: lo <= d < hi ==> !e[d]
    ensures Flagged(e, true, lo, hi) == []
  {
    if lo < hi { NoneFlaggedBetween(e, lo, hi - 1); }
  }

  method GrsCreateDecodingMatrix(F: Field, k: nat, m: nat, matrix: array<nat>, matIdx: array<nat>, erasures: seq<nat>, dmIds: array<nat>)
    returns (dec: array?<nat>)
    requires IsField(F) && matrix.Length == Base(m, k) && Matrix(F, Rows(matrix[..], m, k), m, k)
    requires matIdx.Length >= m && dmIds.Length == k && matIdx != dmIds && matrix != dmIds && matrix != matIdx
    requires forall i :: 0 <= i < |erasures| ==> erasures[i] < k
    modifies matIdx, dmIds
    ensures dec == null <==>
      |Members(erasures)| > m || (erasures != [] && SurvivorsSingular(F, old(Rows(matrix[..], m, k)), k, m, Flags(erasures, k + m)))
    ensures dec != null ==> fresh(dec) && dec.Length == Base(m, k)
    ensures dec != null ==> Rebuilding(F, old(Rows(matrix[..], m, k)), k, m, erasures, matIdx[..], dmIds[..], Rows(dec[..], m, k))
  {
    hide Base, Rows, LostIds, Flagged, Matrix, Alive, Singular, LeftInverse;
    ghost var e, C := Flags(erasures, k + m), Rows(matrix[..], m, k);
    var decoding := new nat[Base(m, k)];
    var flags := ErasuresToErased(k, m, erasures);
    if flags == null { return null; }
    var erases: array<bool> := flags;
    assert erases[..] == e;
    DataLosses(erasures, k, m);
    var inverse := new nat[Base(k, k)];
    var dFailed := CountDataErased(k, erases);
    if dFailed > 0 {
      var r := MakeDecodingMatrix(F, k, m, matrix, erases, inverse, dmIds);
      if r < 0 { return null; }
    }
    var n := CopyLostRows(k, m, inverse, decoding, erases, matIdx);
    dec := decoding;
  }

  lemma DataLosses(erasures: seq<nat>, k: nat, m: nat)
    requires |Members(erasures)| <= m && forall i :: 0 <= i < |erasures| ==> erasures[i] < k
    ensures var e := Flags(erasures, k + m);
      && |Alive(e, k + m)| >= k && |LostIds(e)| <= m && (Flagged(e, true, 0, k) == [] <==> erasures == [])
      && (forall d :: k <= d < k + m ==> !e[d]) && LostIds(e) == Flagged(e, true, 0, k)
  {
    var e := Flags(erasures, k + m);
    AliveCount(e, k + m, Members(erasures));
    DistinctMembers(LostIds(e));
    SubsetCount(Members(LostIds(e)), Members(erasures));
    NoneLostBehind(e, k);
    if erasures != [] { SomeFlagged(e, k, erasures[0]); }
  }

  /** What a successful call leaves behind. */
  ghost predicate Rebuilding(F: Field, C: seq<Row>, k: nat, m: nat, erasures: seq<nat>, matIdx: seq<nat>, dmIds: seq<nat>, dec: seq<Row>)
    requires F.w >= 1
  {
    var e := Flags(erasures, k + m);
    && |LostIds(e)| <= |matIdx| && matIdx[..|LostIds(e)|] == LostIds(e) && |dec| == m && |LostIds(e)| <= m
    && (erasures != [] ==> FromInverse(F, C, k, m, e, dmIds, dec))
  }

  ghost predicate FromInverse(F: Field, C: seq<Row>, k: nat, m: nat, e: seq<bool>, dmIds: seq<nat>, dec: seq<Row>)
    requires F.w >= 1 && |e| == k + m
  {
    && |Alive(e, k + m)| >= k && dmIds == FirstAlive(e, k)
    && exists inv: seq<Row> :: Decodes(F, C, k, m, dmIds, inv) && Copied(dec, inv, LostIds(e), |LostIds(e)|)
  }

  /** Row `r`, applied to the survivors' buffers, gives the contents of device `mat_idx[r]`. */
  lemma RowRebuildsDevice(F: Field, C: seq<Row>, k: nat, m: nat, erasures: seq<nat>, matIdx: seq<nat>, dmIds: seq<nat>, dec: seq<Row>,
      D: seq<Row>, size: nat, r: nat)
    requires F.w >= 1 && Matrix(F, C, m, k) && Codeword(F, C, k, m, D, size)
    requires (forall i :: 0 <= i < |erasures| ==> erasures[i] < k) && Rebuilding(F, C, k, m, erasures, matIdx, dmIds, dec)
    requires r < |LostIds(Flags(erasures, k + m))|
    ensures matIdx[r] < k && |D| == k + m && |dmIds| == k && Sources(D, dmIds, size) && r < |dec| && |dec[r]| == k
    ensures D[matIdx[r]] == Combine(F, dec[r], D, dmIds, size)
  {
    hide LeftInverse, Codeword, Combine, Alive;
    var e := Flags(erasures, k + m);
    var d := LostIds(e)[r];
    assert e[d] && d in erasures;
    var inv :| Decodes(F, C, k, m, dmIds, inv) && Copied(dec, inv, LostIds(e), |LostIds(e)|);
    RowDecodes(F, C, k, m, D, size, dmIds, inv, d);
    assert matIdx[..|LostIds(e)|][r] == d;
  }

  /** With the generated coding matrix the call fails only for more than m lost devices. */
  lemma GoodSurvivorsInvertible(F: Field, C: seq<Row>, k: nat, m: nat, erasures: seq<nat>)
    requires IsField(F) && AnyKInvertible(F, C, m, k) && |Members(erasures)| <= m
    requires forall i :: 0 <= i < |erasures| ==> erasures[i] < k
    ensures !SurvivorsSingular(F, C, k, m, Flags(erasures, k + m))
  {
    hide Singular, Matrix, FirstAlive;
    DataLosses(erasures, k, m);
    assert Selection(FirstAlive(Flags(erasures, k + m), k), k, m);
  }
}
