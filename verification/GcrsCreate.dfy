/** `gcrs_create_decoding_bitmatrix`: the whole decoding matrix, and what it is for: block row r,
    applied to the survivors in ascending order, gives back device `mat_idx[r]`. */
module GcrsCreate {
  import opened FiniteSets
  import opened Bits
  import opened RowMajor
  import opened Survivors
  import opened Erasures
  import opened BitAlgebra
  import Devices
  import opened PacketOps
  import opened BitDecoding
  import opened BitInvert
  import opened BitBlocks
  import opened LostColumns
  import opened DecodingSchedule
  import opened GcrsVector
  import opened GcrsDecoding

  const MIN_K := 1
  const MAX_K := 45
  const MIN_W := 4
  const MAX_W := 8

  /** The width from which the search starts. */
  function StartWidth(w: nat): nat { if w < MIN_W || w < MAX_W then MIN_W else w }

  /** `gcrs_check_k_m_w`: the first word size with enough elements, or -1. */
  method CheckKMW(k: nat, m: nat, w: nat) returns (r: int)
    ensures r == -1 <==> !(MIN_K <= k <= MAX_K && m <= k)
    ensures r != -1 ==> r >= StartWidth(w) >= MIN_W && k + m <= Pow2(r)
    ensures r != -1 ==> forall v: nat :: StartWidth(w) <= v < r ==> Pow2(v) < k + m
  {
    if k < MIN_K || k > MAX_K { return -1; }
    if k < m { return -1; }
    var v: nat := w;
    if w < MIN_W || w < MAX_W { v := MIN_W; }
    while Pow2(v) < k + m
      invariant v >= StartWidth(w) && forall u: nat :: StartWidth(w) <= u < v ==> Pow2(u) < k + m
      decreases k + m - Pow2(v)
    {
      assert Pow2(v + 1) == 2 * Pow2(v);
      v := v + 1;
    }
    r := v;
  }

  // ----- the matrix for the lost data devices

  /** `gcrs_create_decoding_data_bitmatrix`: the survivors' rows inverted.  A failed inversion is
      not reported. */
  method CreateDecodingDataBitmatrix(k: nat, m: nat, w: nat, B: array<bool>, inverse: array<bool>, erased: array<bool>, dmIds: array<nat>)
    returns (r: int)
    requires w >= 1 && B != inverse && B.Length == Base(Base(m, w), Base(k, w)) && inverse.Length == Base(Base(k, w), Base(k, w))
    requires dmIds.Length == k && erased.Length == k + m && erased != inverse
    requires Setting(Rows(B[..], Base(m, w), Base(k, w)), k, m, w, erased[..])
    modifies inverse, dmIds
    ensures r == if MIN_K <= k <= MAX_K && m <= k then 0 else -1
    ensures r == 0 ==> dmIds[..] == FirstAlive(erased[..], k)
    ensures r == 0 && !BitSingular(FirstBits(Rows(B[..], Base(m, w), Base(k, w)), k, m, w, erased[..]), Base(k, w)) ==>
      InvertsFirst(Rows(inverse[..], Base(k, w), Base(k, w)), Rows(B[..], Base(m, w), Base(k, w)), k, m, w, erased[..])
  {
    hide Base, Rows, FirstAlive, BitSingular, BitInverse, SurvivorBits, SurvivorPart, Alive;
    var ok := CheckKMW(k, m, w);
    if ok < 0 { return -1; }
    ghost var R: seq<BitRow>, e := Rows(B[..], Base(m, w), Base(k, w)), erased[..];
    ChooseSurvivors(k, erased, dmIds);
    var K := Base(k, w);
    var tmpmat := new bool[Base(K, K)];
    CollectBits(k, m, w, B, dmIds, tmpmat);
    var unused := InvertBitmatrix(tmpmat, inverse, K);
    r := 0;
  }

  method CollectBits(k: nat, m: nat, w: nat, B: array<bool>, ids: array<nat>, dec: array<bool>)
    requires w >= 1 && B != dec && B.Length == Base(Base(m, w), Base(k, w)) && dec.Length == Base(Base(k, w), Base(k, w))
    requires ids.Length == k && forall i :: 0 <= i < k ==> ids[..][i] < k + m
    modifies dec
    ensures BitMatrix(Rows(B[..], Base(m, w), Base(k, w)), Base(m, w), Base(k, w))
    ensures Rows(dec[..], Base(k, w), Base(k, w)) == SurvivorBits(Rows(B[..], Base(m, w), Base(k, w)), k, m, w, ids[..])
  {
    hide Base, Rows, SurvivorPart, SurvivorBits;
    var K, M := Base(k, w), Base(m, w);
    ghost var R: seq<BitRow>, front := Rows(B[..], M, K), ids[..];
    IsMatrix(B[..], M, K);
    BaseStep(0, w);
    IsMatrix(dec[..], K, K);
    SurvivorPartStart(Rows(dec[..], K, K), R, k, m, w, front);
    var i: nat := 0;
    while i < k
      invariant i <= k && SurvivorPart(Rows(dec[..], K, K), R, k, m, w, front, i)
    {
      ghost var D: seq<BitRow> := Rows(dec[..], K, K);
      assert ids[i] == front[i];
      BaseBefore(i, k, w);
      DeviceBlock(R, k, m, w, ids[i]);
      if ids[i] < k {
        UnitBlock(dec, K, K, w, i, ids[i]);
      } else {
        CopyRows(dec, K, Base(i, w), B, M, Base(ids[i] - k, w), w, K);
      }
      IsMatrix(dec[..], K, K);
      SurvivorPartStep(D, Rows(dec[..], K, K), R, k, m, w, front, i);
      i := i + 1;
    }
    SurvivorPartAll(Rows(dec[..], K, K), R, k, m, w, front);
  }

  // ----- the blocks

  /** The lost devices. */
  function LostIds(e: seq<bool>): seq<nat> { Flagged(e, true, 0, |e|) }

  /** The first `n` blocks rebuild the first `n` lost devices. */
  ghost predicate Made(D: seq<BitRow>, B: seq<BitRow>, k: nat, m: nat, w: nat, e: seq<bool>, n: nat) {
    Setting(B, k, m, w, e) && Building(D, B, k, m, w, FirstAlive(e, k), LostIds(e), n)
  }

  lemma LostStep(e: seq<bool>, d: nat)
    requires d < |e|
    ensures |Flagged(e, true, 0, d)| <= |LostIds(e)|
    ensures e[d] ==> |Flagged(e, true, 0, d)| < |LostIds(e)| && LostIds(e)[|Flagged(e, true, 0, d)|] == d
    ensures |Flagged(e, true, 0, d + 1)| == |Flagged(e, true, 0, d)| + if e[d] then 1 else 0
  {
    FlaggedNext(e, true, 0, d);
    FlaggedPrefix(e, true, 0, d, |e|);
    if e[d] { FlaggedAt(e, true, 0, d, |e|); }
  }

  lemma MadeStart(D: seq<BitRow>, B: seq<BitRow>, k: nat, m: nat, w: nat, e: seq<bool>)
    requires Setting(B, k, m, w, e) && BitMatrix(D, |D|, Base(k, w)) && Base(|LostIds(e)|, w) <= |D|
    ensures Made(D, B, k, m, w, e, 0)
  {
  }

  lemma MadeData(D: seq<BitRow>, t: seq<BitRow>, B: seq<BitRow>, inv: seq<BitRow>, k: nat, m: nat, w: nat, e: seq<bool>, n: nat)
    requires Made(D, B, k, m, w, e, n) && n < |LostIds(e)| && LostIds(e)[n] < k && BitMatrix(t, |D|, Base(k, w))
    requires InvertsFirst(inv, B, k, m, w, e)
    requires forall r :: 0 <= r < |D| && !(Base(n, w) <= r < Base(n, w) + w) ==> t[r] == D[r]
    requires Base(LostIds(e)[n], w) + w <= |inv| && Base(n, w) + w <= |t|
    requires forall r :: Base(n, w) <= r < Base(n, w) + w ==> t[r] == inv[Base(LostIds(e)[n], w) + (r - Base(n, w))]
    ensures Made(t, B, k, m, w, e, n + 1)
  {
    hide Building, BitInverse, SurvivorBits, Base, LostIds, Alive;
    DataBlockStep(D, t, B, inv, k, m, w, FirstAlive(e, k), LostIds(e), n);
  }

  lemma MadeCoding(D: seq<BitRow>, C: seq<BitRow>, t: seq<BitRow>, B: seq<BitRow>, k: nat, m: nat, w: nat, e: seq<bool>, n: nat)
    requires Made(D, B, k, m, w, e, n) && n < |LostIds(e)| && |C| == |D|
    requires forall r :: 0 <= r < |D| && !(Base(n, w) <= r < Base(n, w) + w) ==> C[r] == D[r]
    requires Replacing(t, C, B, k, m, w, e, LostIds(e)[n], n, w, 0)
    ensures Made(t, B, k, m, w, e, n + 1)
  {
    hide Rebuilds, Base, LostIds, Alive, Accounts, DeviceBits, FirstAlive, SurvivorBits;
    var front, tail, K := FirstAlive(e, k), LostIds(e), Base(k, w);
    BuildingFrame(D, t, B, k, m, w, front, tail, n);
    var S := SurvivorBits(B, k, m, w, front);
    forall x: nat, y: nat | x < n + 1 && y < w ensures RebuildsBlock(t, B, k, m, w, S, tail, x, y) {
      if x < n {
        assert RebuildsBlock(t, B, k, m, w, S, tail, x, y);
      } else {
        assert RowReplaced(t, B, k, m, w, e, tail[n], n, y, K);
        AccountsEnd(t[Base(n, w) + y], S, DeviceBits(B, k, m, w, tail[n], y), Marks(e, k), w, K);
      }
    }
  }

  /** The number of erased data devices. */
  method CountDataErased(k: nat, erases: array<bool>) returns (n: nat)
    requires k <= erases.Length
    ensures n == |Flagged(erases[..], true, 0, k)|
  {
    n := 0;
    var i: nat := 0;
    while i < k
      invariant i <= k && n == |Flagged(erases[..], true, 0, i)|
    {
      FlaggedNext(erases[..], true, 0, i);
      if erases[i] { n := n + 1; }
      i := i + 1;
    }
  }

  /** Block rows for the lost data devices. */
  method DataBlocks(k: nat, m: nat, w: nat, inverse: array<bool>, dec: array<bool>, erases: array<bool>, matIdx: array<nat>,
      ghost B: seq<BitRow>, ghost good: bool) returns (n: nat)
    requires w >= 1 && inverse != dec && dec != erases && inverse.Length == Base(Base(k, w), Base(k, w)) && dec.Length == Base(Base(m, w), Base(k, w))
    requires erases.Length == k + m && |LostIds(erases[..])| <= m <= matIdx.Length && Setting(B, k, m, w, erases[..])
    requires good && Flagged(erases[..], true, 0, k) != [] ==> InvertsFirst(Rows(inverse[..], Base(k, w), Base(k, w)), B, k, m, w, erases[..])
    modifies dec, matIdx
    ensures n == |Flagged(erases[..], true, 0, k)| <= m && n <= |LostIds(erases[..])|
    ensures matIdx[..n] == LostIds(erases[..])[..n]
    ensures good ==> Made(Rows(dec[..], Base(m, w), Base(k, w)), B, k, m, w, erases[..], n)
  {
    hide Base, Rows, Made, LostIds, Flagged, Setting, InvertsFirst;
    var K := Base(k, w);
    ghost var e, M, V: seq<BitRow> := erases[..], Base(m, w), Rows(inverse[..], K, K);
    IsMatrix(dec[..], M, K);
    LostFit(e, m, w);
    IsMatrix(inverse[..], K, K);
    if good { MadeStart(Rows(dec[..], M, K), B, k, m, w, e); }
    NoneFlagged(e);
    n := 0;
    var d: nat := 0;
    while d < k
      invariant d <= k && erases[..] == e && n == |Flagged(e, true, 0, d)| <= |LostIds(e)| && matIdx[..n] == LostIds(e)[..n]
      invariant good ==> Made(Rows(dec[..], M, K), B, k, m, w, e, n)
    {
      LostStep(e, d);
      if erases[d] {
        SomeFlagged(e, k, d);
        ghost var D: seq<BitRow> := Rows(dec[..], M, K);
        matIdx[n] := d;
        BaseBefore(d, k, w);
        BaseBefore(n, m, w);
        CopyRows(dec, M, Base(n, w), inverse, K, Base(d, w), w, K);
        IsMatrix(dec[..], M, K);
        if good { MadeData(D, Rows(dec[..], M, K), B, V, k, m, w, e, n); }
        n := n + 1;
      }
      d := d + 1;
    }
  }

  lemma SomeFlagged(e: seq<bool>, k: nat, d: nat)
    requires d < k <= |e| && e[d]
    ensures Flagged(e, true, 0, k) != []
  {
    FlaggedAt(e, true, 0, d, k);
  }

  lemma LostFit(e: seq<bool>, m: nat, w: nat)
    requires |LostIds(e)| <= m
    ensures Base(|LostIds(e)|, w) <= Base(m, w)
  {
    if |LostIds(e)| < m { BaseBefore(|LostIds(e)|, m, w); }
  }

  /** Block rows for the lost coding devices. */
  method CodingBlocks(k: nat, m: nat, w: nat, B: array<bool>, inverse: array<bool>, dec: array<bool>, erases: array<bool>, matIdx: array<nat>,
      n0: nat, ghost good: bool) returns (n: nat)
    requires w >= 1 && dec != B && inverse != dec && dec != erases && B.Length == Base(Base(m, w), Base(k, w))
    requires inverse.Length == Base(Base(k, w), Base(k, w)) && dec.Length == Base(Base(m, w), Base(k, w))
    requires erases.Length == k + m && |LostIds(erases[..])| <= m <= matIdx.Length && n0 == |Flagged(erases[..], true, 0, k)|
    requires n0 < k || n0 == |LostIds(erases[..])|
    requires Setting(Rows(B[..], Base(m, w), Base(k, w)), k, m, w, erases[..])
    requires good && n0 > 0 ==> InvertsFirst(Rows(inverse[..], Base(k, w), Base(k, w)), Rows(B[..], Base(m, w), Base(k, w)), k, m, w, erases[..])
    requires n0 <= |LostIds(erases[..])| && matIdx[..n0] == LostIds(erases[..])[..n0]
    requires good ==> Made(Rows(dec[..], Base(m, w), Base(k, w)), Rows(B[..], Base(m, w), Base(k, w)), k, m, w, erases[..], n0)
    modifies dec, matIdx
    ensures n == |LostIds(erases[..])| && matIdx[..n] == LostIds(erases[..])
    ensures good ==> Made(Rows(dec[..], Base(m, w), Base(k, w)), Rows(B[..], Base(m, w), Base(k, w)), k, m, w, erases[..], n)
  {
    hide *;
    var K := Base(k, w);
    ghost var e, M, R: seq<BitRow> := erases[..], Base(m, w), Rows(B[..], Base(m, w), K);
    n := n0;
    LostLength(e);
    var x: nat := 0;
    while x < m
      invariant x <= m && n0 <= n && erases[..] == e && n == |Flagged(e, true, 0, k + x)| <= |LostIds(e)| && matIdx[..n] == LostIds(e)[..n]
      invariant good ==> Made(Rows(dec[..], M, K), R, k, m, w, e, n)
    {
      LostStep(e, k + x);
      if erases[k + x] {
        ghost var D: seq<BitRow> := Rows(dec[..], M, K);
        matIdx[n] := k + x;
        BaseBefore(n, m, w);
        ClearRows(dec, M, K, Base(n, w), w);
        IsMatrix(dec[..], M, K);
        ghost var C: seq<BitRow> := Rows(dec[..], M, K);
        var unused := GenerateCodingVector(k, m, w, x, B, inverse, dec, M, n, erases, good);
        LostBelow(e, k);
        if good { MadeCoding(D, C, Rows(dec[..], M, K), R, k, m, w, e, n); }
        n := n + 1;
      }
      x := x + 1;
    }
  }

  lemma LostLength(e: seq<bool>)
    ensures LostIds(e) == Flagged(e, true, 0, |e|) && LostIds(e)[..|LostIds(e)|] == LostIds(e)
  {
  }

  lemma LostBelow(e: seq<bool>, k: nat)
    requires k <= |e|
    ensures |Flagged(e, true, 0, k)| <= |LostIds(e)|
  {
    FlaggedPrefix(e, true, 0, k, |e|);
  }

  // ----- the routine

  method CreateDecodingBitmatrix(k: nat, m: nat, w: nat, B: array<bool>, matIdx: array<nat>, erasures: seq<nat>, dmIds: array<nat>)
    returns (dec: array?<bool>)
    requires w >= 1 && k >= 1 && B.Length == Base(Base(m, w), Base(k, w)) && matIdx.Length >= m && dmIds.Length == k && matIdx != dmIds
    requires forall i :: 0 <= i < |erasures| ==> erasures[i] < k + m
    modifies matIdx, dmIds
    ensures var e := Flags(erasures, k + m);
      dec == null <==> |Members(erasures)| > m || (Flagged(e, true, 0, k) != [] && (k > MAX_K || k < m))
    ensures dec != null ==> Result(k, m, w, Rows(B[..], Base(m, w), Base(k, w)), Flags(erasures, k + m), matIdx[..], dmIds[..], dec)
  {
    hide Base, Rows, Made, LostIds, Flagged, Setting, InvertsFirst, FirstBits, BitSingular;
    var K := Base(k, w);
    ghost var e, R: seq<BitRow> := Flags(erasures, k + m), Rows(B[..], Base(m, w), K);
    IsMatrix(B[..], Base(m, w), K);
    var decoding := new bool[Base(Base(m, w), K)];
    var flags := ErasuresToErased(k, m, erasures);
    if flags == null { return null; }
    var erases: array<bool> := flags;
    assert erases[..] == e;
    EnoughLeft(erasures, R, k, m, w);
    var inverse := new bool[Base(K, K)];
    ghost var good := !BitSingular(FirstBits(R, k, m, w, e), K);
    var dFailed := CountDataErased(k, erases);
    if dFailed > 0 {
      var r := CreateDecodingDataBitmatrix(k, m, w, B, inverse, erases, dmIds);
      if r < 0 { return null; }
    }
    var n := DataBlocks(k, m, w, inverse, decoding, erases, matIdx, R, good);
    n := CodingBlocks(k, m, w, B, inverse, decoding, erases, matIdx, n, good);
    dec := decoding;
  }

  lemma EnoughLeft(erasures: seq<nat>, B: seq<BitRow>, k: nat, m: nat, w: nat)
    requires w >= 1 && BitMatrix(B, Base(m, w), Base(k, w)) && |Members(erasures)| <= m
    requires forall i :: 0 <= i < |erasures| ==> erasures[i] < k + m
    ensures Setting(B, k, m, w, Flags(erasures, k + m)) && |LostIds(Flags(erasures, k + m))| <= m
  {
    var e := Flags(erasures, k + m);
    AliveCount(e, k + m, Members(erasures));
    var lost := LostIds(e);
    DistinctMembers(lost);
    SubsetCount(Members(lost), Members(erasures));
  }

  /** What a call leaves behind: `mat_idx` lists the lost devices, and when data was lost `dm_ids`
      the survivors; if their rows are invertible, the blocks rebuild the lost devices. */
  ghost predicate Result(k: nat, m: nat, w: nat, B: seq<BitRow>, e: seq<bool>, matIdx: seq<nat>, dmIds: seq<nat>, dec: array<bool>)
    reads dec
  {
    && Setting(B, k, m, w, e) && dec.Length == Base(Base(m, w), Base(k, w))
    && |LostIds(e)| <= |matIdx| && matIdx[..|LostIds(e)|] == LostIds(e)
    && (Flagged(e, true, 0, k) != [] ==> dmIds == FirstAlive(e, k))
    && (!BitSingular(FirstBits(B, k, m, w, e), Base(k, w)) ==>
          Made(Rows(dec[..], Base(m, w), Base(k, w)), B, k, m, w, e, |LostIds(e)|))
  }

  /** When no data device is lost, the survivors are the data devices. */
  lemma AllDataAlive(e: seq<bool>, k: nat)
    requires k <= |e| && Flagged(e, true, 0, k) == [] && |Alive(e, |e|)| >= k
    ensures FirstAlive(e, k) == Devices.DataIds(k)
  {
    FlaggedBoth(e, 0, k);
    AlivePrefix(e, k, |e|);
    forall i: nat | i < k ensures FirstAlive(e, k)[i] == i {
      FlaggedBoth(e, 0, i);
      if e[i] { SomeFlagged(e, k, i); }
      FlaggedPrefix(e, true, 0, i, k);
      FlaggedAt(e, false, 0, i, k);
    }
  }

  /** Block row `r`, applied to the survivors' packets, gives the packets of device `mat_idx[r]`. */
  lemma BlockRebuildsDevice(D: seq<BitRow>, B: seq<BitRow>, k: nat, m: nat, w: nat, e: seq<bool>, orig: Packets, r: nat, y: nat)
    requires Made(D, B, k, m, w, e, |LostIds(e)|) && BitCodeword(B, k, m, w, orig) && r < |LostIds(e)| && y < w
    ensures Base(r, w) + y < |D| && Base(LostIds(e)[r], w) + y < |orig| && |D[Base(r, w) + y]| == Base(k, w)
    ensures forall i :: 0 <= i < k ==> FirstAlive(e, k)[i] < k + m
    ensures Select(D[Base(r, w) + y], Through(orig, FirstAlive(e, k), k + m, w), Base(k, w)) == orig[Base(LostIds(e)[r], w) + y]
  {
    hide Base, Select, DeviceBits, FirstAlive, Through;
    var S, front, tail := FirstBits(B, k, m, w, e), FirstAlive(e, k), LostIds(e);
    assert RebuildsBlock(D, B, k, m, w, S, tail, r, y);
    BaseBefore(r, |tail|, w);
    SurvivorPackets(B, k, m, w, orig, front);
    CodewordPacket(B, k, m, w, orig, tail[r], y);
  }
}
