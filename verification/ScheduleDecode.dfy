/** Decoding by schedule: `jerasure_generate_decoding_schedule`, `jerasure_schedule_decode_lazy`,
    and for two coding devices the table of schedules made in advance. */
module ScheduleDecode {
  import opened RowMajor
  import opened Survivors
  import opened Erasures
  import opened BitAlgebra
  import opened Schedule
  import opened PacketOps
  import opened DeviceStripes
  import opened BitDecoding
  import opened BitInvert
  import opened BitBlocks
  import opened LostColumns
  import opened ScheduledIds
  import opened DecodingSchedule
  import opened DumbSchedule
  import opened SmartSchedule

  /** The bits of the devices standing in the first k places. */
  ghost function FrontBits(B: seq<BitRow>, k: nat, m: nat, w: nat, e: seq<bool>): (S: seq<BitRow>)
    requires w >= 1 && BitMatrix(B, Base(m, w), Base(k, w)) && Recoverable(e, k, m)
    ensures BitMatrix(S, Base(k, w), Base(k, w))
  {
    FrontRange(e, k, m);
    SurvivorBits(B, k, m, w, Front(e, k, m))
  }

  lemma FrontRange(e: seq<bool>, k: nat, m: nat)
    requires Recoverable(e, k, m)
    ensures forall i :: 0 <= i < k ==> Front(e, k, m)[i] < k + m && (Front(e, k, m)[i] == i || Front(e, k, m)[i] >= k)
    ensures forall i :: 0 <= i < k ==> (Front(e, k, m)[i] != i <==> e[i])
  {
    forall i: nat | i < k
      ensures Front(e, k, m)[i] < k + m && (Front(e, k, m)[i] == i || Front(e, k, m)[i] >= k) && (Front(e, k, m)[i] != i <==> e[i])
    {
      assert Front(e, k, m)[i] == Stand(e, k, m, i);
    }
  }

  /** `mem` has the contents of `orig` on the devices that are not lost. */
  ghost predicate Intact(mem: Packets, orig: Packets, e: seq<bool>, n: nat, w: nat) {
    && |mem| == |orig| == Base(n, w) && |e| == n
    && forall d: nat, x: nat :: d < n && !e[d] && x < w ==> SamePacket(mem, orig, n, w, d, x)
  }

  /** No lost device has a zero row: the coding routines would not write its packet. */
  ghost predicate LostNonzero(B: seq<BitRow>, k: nat, m: nat, w: nat, e: seq<bool>)
    requires BitMatrix(B, Base(m, w), Base(k, w)) && |e| == k + m
  {
    forall d: nat :: d < k + m && e[d] ==> NonzeroBits(B, k, m, w, d)
  }

  /** What a decoding schedule is for: run on the pointers in `RowIds` order, it restores every lost
      device of every codeword. */
  ghost predicate Restores(ops: seq<Op>, B: seq<BitRow>, k: nat, m: nat, w: nat, e: seq<bool>) {
    && w >= 1 && BitMatrix(B, Base(m, w), Base(k, w)) && Recoverable(e, k, m)
    && (LostNonzero(B, k, m, w, e) ==> forall orig, mem :: BitCodeword(B, k, m, w, orig) && Intact(mem, orig, e, k + m, w) ==>
          RunRestores(ops, k, m, w, e, orig, mem))
  }

  ghost predicate RunRestores(ops: seq<Op>, k: nat, m: nat, w: nat, e: seq<bool>, orig: Packets, mem: Packets)
    requires w >= 1 && Recoverable(e, k, m) && |mem| == |orig| == Base(k + m, w)
  {
    Run(Through(mem, RowIds(e, k, m), k + m, w), ops, w) == Through(orig, RowIds(e, k, m), k + m, w)
  }

  lemma IntactFront(mem: Packets, orig: Packets, e: seq<bool>, k: nat, m: nat, w: nat)
    requires w >= 1 && Recoverable(e, k, m) && Intact(mem, orig, e, k + m, w)
    ensures forall i :: 0 <= i < k ==> Front(e, k, m)[i] < k + m
    ensures Through(mem, Front(e, k, m), k + m, w) == Through(orig, Front(e, k, m), k + m, w)
  {
    FrontRange(e, k, m);
    var f := Front(e, k, m);
    var a, b := Through(mem, f, k + m, w), Through(orig, f, k + m, w);
    forall p: nat | p < Base(k, w) ensures a[p] == b[p] {
      PacketIndex(f, k + m, w, p);
      assert f[p / w] == Stand(e, k, m, p / w);
      assert SamePacket(mem, orig, k + m, w, f[p / w], p % w);
    }
  }

  /** The finished matrix makes a restoring schedule. */
  lemma BuiltRestores(ops: seq<Op>, dec: seq<BitRow>, B: seq<BitRow>, k: nat, m: nat, w: nat, e: seq<bool>)
    requires Recoverable(e, k, m) && Building(dec, B, k, m, w, Front(e, k, m), Tail(e, k, m), |Tail(e, k, m)|)
    requires Implements(ops, dec, k, |Tail(e, k, m)|, w)
    ensures Restores(ops, B, k, m, w, e)
  {
    hide Base, RebuildsAll, Implements, BitCodeword, Through, Run, Intact;
    var front, tail := Front(e, k, m), Tail(e, k, m);
    ImplementsSize(ops, dec, k, |tail|, w);
    if LostNonzero(B, k, m, w, e) {
      TailNonzero(B, k, m, w, e);
      forall orig, mem | BitCodeword(B, k, m, w, orig) && Intact(mem, orig, e, k + m, w)
        ensures |mem| == |orig| == Base(k + m, w) && RunRestores(ops, k, m, w, e, orig, mem)
      {
        IntactSizes(mem, orig, e, k + m, w);
        IntactFront(mem, orig, e, k, m, w);
        ScheduleRestores(ops, dec, B, k, m, w, front, tail, orig, mem);
      }
    }
  }

  lemma ImplementsSize(ops: seq<Op>, B: seq<BitRow>, k: nat, m: nat, w: nat)
    requires Implements(ops, B, k, m, w)
    ensures |B| == Base(m, w)
  {
  }

  lemma IntactSizes(mem: Packets, orig: Packets, e: seq<bool>, n: nat, w: nat)
    requires Intact(mem, orig, e, n, w)
    ensures |mem| == |orig| == Base(n, w)
  {
  }

  lemma TailNonzero(B: seq<BitRow>, k: nat, m: nat, w: nat, e: seq<bool>)
    requires BitMatrix(B, Base(m, w), Base(k, w)) && |e| == k + m && LostNonzero(B, k, m, w, e)
    ensures forall x :: 0 <= x < |Tail(e, k, m)| ==> Tail(e, k, m)[x] < k + m && NonzeroBits(B, k, m, w, Tail(e, k, m)[x])
  {
  }

  /** The lost data devices come first in the tail. */
  lemma TailParts(e: seq<bool>, k: nat, m: nat)
    requires Recoverable(e, k, m)
    ensures |Flagged(e, true, 0, k)| <= |Tail(e, k, m)| && forall x :: 0 <= x < |Tail(e, k, m)| ==> Tail(e, k, m)[x] < k + m
    ensures forall x :: 0 <= x < |Flagged(e, true, 0, k)| ==> Tail(e, k, m)[x] == Flagged(e, true, 0, k)[x] < k
    ensures forall x :: |Flagged(e, true, 0, k)| <= x < |Tail(e, k, m)| ==> k <= Tail(e, k, m)[x]
  {
  }

  /** Where the pointers put the lost devices. */
  lemma RowIdsFacts(e: seq<bool>, k: nat, m: nat, rowIds: seq<nat>)
    requires Recoverable(e, k, m) && |rowIds| == k + m && |RowIds(e, k, m)| <= k + m
    requires rowIds[..|RowIds(e, k, m)|] == RowIds(e, k, m)
    ensures k + |Tail(e, k, m)| <= |rowIds| && rowIds[..k] == Front(e, k, m)
    ensures forall x: nat :: x < |Tail(e, k, m)| ==> rowIds[k + x] == Tail(e, k, m)[x]
  {
    hide Front, Tail, Flagged;
    var ids, front, tail := RowIds(e, k, m), Front(e, k, m), Tail(e, k, m);
    assert ids == front + tail;
    forall x: nat | x < |tail| ensures rowIds[k + x] == tail[x] { assert ids[k + x] == tail[x]; }
    assert rowIds[..k] == ids[..k] == front;
  }

  lemma PlacesOf(e: seq<bool>, k: nat, m: nat, indToRow: seq<nat>)
    requires Recoverable(e, k, m) && |indToRow| == k + m && Inverse(RowIds(e, k, m), indToRow)
    ensures Places(indToRow, Front(e, k, m), Tail(e, k, m), k, |Flagged(e, true, 0, k)|)
  {
    TailParts(e, k, m);
    FrontRange(e, k, m);
    forall i: nat | i < k && Front(e, k, m)[i] != i
      ensures var p := indToRow[i];
        k <= p < k + |Flagged(e, true, 0, k)| && p - k < |Tail(e, k, m)| && Tail(e, k, m)[p - k] == i
    {
      FlaggedAt(e, true, 0, i, k);
      var q := |Flagged(e, true, 0, i)|;
      assert RowIds(e, k, m)[k + q] == Tail(e, k, m)[q] == i;
    }
  }

  lemma BuildingStart(dec: seq<BitRow>, B: seq<BitRow>, k: nat, m: nat, w: nat, e: seq<bool>)
    requires w >= 1 && Recoverable(e, k, m) && BitMatrix(B, Base(m, w), Base(k, w))
    requires BitMatrix(dec, Base(|Tail(e, k, m)|, w), Base(k, w))
    ensures Building(dec, B, k, m, w, Front(e, k, m), Tail(e, k, m), 0)
  {
    FrontRange(e, k, m);
  }

  /** The rows of the lost data devices, from the inverse of the survivors' bits. */
  method DataRows(k: nat, m: nat, w: nat, B: array<bool>, rowIds: array<nat>, dec: array<bool>, ddf: nat, ghost e: seq<bool>, ghost good: bool)
    requires w >= 1 && B != dec && B.Length == Base(Base(m, w), Base(k, w)) && Recoverable(e, k, m)
    requires dec.Length == Base(Base(|Tail(e, k, m)|, w), Base(k, w)) && ddf <= |Tail(e, k, m)| && k + |Tail(e, k, m)| <= rowIds.Length
    requires rowIds[..k] == Front(e, k, m)
    requires forall x: nat :: x < |Tail(e, k, m)| ==> rowIds[k + x] == Tail(e, k, m)[x]
    requires forall x: nat :: x < ddf ==> Tail(e, k, m)[x] < k
    requires BitMatrix(Rows(B[..], Base(m, w), Base(k, w)), Base(m, w), Base(k, w))
    requires good ==> !BitSingular(FrontBits(Rows(B[..], Base(m, w), Base(k, w)), k, m, w, e), Base(k, w))
    modifies dec
    ensures good ==> Building(Rows(dec[..], Base(|Tail(e, k, m)|, w), Base(k, w)), Rows(B[..], Base(m, w), Base(k, w)), k, m, w,
                              Front(e, k, m), Tail(e, k, m), ddf)
  {
    hide Base, Rows, Building, BitSingular, Tail, Front, BitInverse, SurvivorBits, InvertsSurvivors;
    var K, M := Base(k, w), Base(m, w);
    ghost var R: seq<BitRow> := Rows(B[..], M, K);
    IsMatrix(dec[..], Base(|Tail(e, k, m)|, w), K);
    BuildingStart(Rows(dec[..], Base(|Tail(e, k, m)|, w), K), R, k, m, w, e);
    if ddf > 0 {
      FrontRange(e, k, m);
      assert forall i :: 0 <= i < k ==> rowIds[i] == rowIds[..k][i];
      var decoding, inverse := new bool[Base(K, K)], new bool[Base(K, K)];
      BuildSurvivorBits(k, m, w, B, rowIds, decoding);
      var r := InvertBitmatrix(decoding, inverse, K);
      if good { Inverted(Rows(inverse[..], K, K), R, k, m, w, e); }
      CopyInverse(k, m, w, inverse, rowIds, dec, ddf, R, Front(e, k, m), Tail(e, k, m), good);
    }
  }

  lemma Inverted(inv: seq<BitRow>, B: seq<BitRow>, k: nat, m: nat, w: nat, e: seq<bool>)
    requires w >= 1 && Recoverable(e, k, m) && BitMatrix(B, Base(m, w), Base(k, w))
    requires BitMatrix(inv, Base(k, w), Base(k, w)) && BitInverse(inv, FrontBits(B, k, m, w, e), Base(k, w))
    ensures InvertsSurvivors(inv, B, k, m, w, Front(e, k, m))
  {
    FrontRange(e, k, m);
  }

  /** The rows of one lost coding device. */
  method RebuildCodingDevice(k: nat, m: nat, w: nat, B: array<bool>, rowIds: array<nat>, indToRow: array<nat>, dec: array<bool>, n: nat,
      ghost ddf: nat, ghost front: seq<nat>, ghost tail: seq<nat>, ghost good: bool)
    requires w >= 1 && B != dec && B.Length == Base(Base(m, w), Base(k, w)) && k <= rowIds.Length && rowIds[..k] == front
    requires dec.Length == Base(Base(|tail|, w), Base(k, w)) && ddf <= n < |tail| && k + n < rowIds.Length
    requires rowIds[k + n] == tail[n] && k <= tail[n] < k + m && Places(indToRow[..], front, tail, k, ddf)
    requires good ==> Building(Rows(dec[..], Base(|tail|, w), Base(k, w)), Rows(B[..], Base(m, w), Base(k, w)), k, m, w, front, tail, n)
    modifies dec
    ensures good ==> Building(Rows(dec[..], Base(|tail|, w), Base(k, w)), Rows(B[..], Base(m, w), Base(k, w)), k, m, w, front, tail, n + 1)
  {
    hide Base, Rows, Building, InBlock, Places, ClearedPart;
    var K, M := Base(k, w), Base(m, w);
    ghost var E, R: seq<BitRow> := Base(|tail|, w), Rows(B[..], M, K);
    ghost var D: seq<BitRow> := Rows(dec[..], E, K);
    var drive := rowIds[k + n] - k;
    BaseBefore(drive, m, w);
    BaseBefore(n, |tail|, w);
    CopyRows(dec, E, Base(n, w), B, M, Base(drive, w), w, K);
    IsMatrix(dec[..], E, K);
    ghost var C: seq<BitRow> := Rows(dec[..], E, K);
    ClearLostColumns(k, w, rowIds, dec, E, n);
    if good { CodingBlockStart(D, C, Rows(dec[..], E, K), R, k, m, w, front, tail, n); }
    AddLostColumns(k, m, w, B, rowIds, indToRow, dec, n, tail, ddf, good);
  }

  // ----- the schedule

  /** The erasure list names devices, none of them twice. */
  predicate Erasable(erasures: seq<nat>, n: nat) {
    Distinct(erasures) && forall i :: 0 <= i < |erasures| ==> erasures[i] < n
  }

  /** The schedule works on the pointers, and restores what was lost when the survivors suffice. */
  ghost predicate Decodes(ops: seq<Op>, B: seq<BitRow>, k: nat, m: nat, w: nat, e: seq<bool>) {
    && w >= 1 && BitMatrix(B, Base(m, w), Base(k, w)) && Recoverable(e, k, m)
    && AllFit(ops, |RowIds(e, k, m)|, w)
    && (!BitSingular(FrontBits(B, k, m, w, e), Base(k, w)) ==> Restores(ops, B, k, m, w, e))
  }

  /** Build the matrix of `ddf + cdf` block rows. */
  method DecodingRows(k: nat, m: nat, w: nat, B: array<bool>, rowIds: array<nat>, indToRow: array<nat>, dec: array<bool>,
      ddf: nat, cdf: nat, ghost e: seq<bool>, ghost good: bool)
    requires w >= 1 && B != dec && B.Length == Base(Base(m, w), Base(k, w)) && Recoverable(e, k, m)
    requires dec.Length == Base(Base(ddf + cdf, w), Base(k, w)) && ddf == |Flagged(e, true, 0, k)| && ddf + cdf == |Tail(e, k, m)|
    requires rowIds.Length == indToRow.Length == k + m && |RowIds(e, k, m)| <= k + m
    requires rowIds[..|RowIds(e, k, m)|] == RowIds(e, k, m) && Inverse(RowIds(e, k, m), indToRow[..])
    requires BitMatrix(Rows(B[..], Base(m, w), Base(k, w)), Base(m, w), Base(k, w))
    requires good ==> !BitSingular(FrontBits(Rows(B[..], Base(m, w), Base(k, w)), k, m, w, e), Base(k, w))
    modifies dec
    ensures good ==> Building(Rows(dec[..], Base(ddf + cdf, w), Base(k, w)), Rows(B[..], Base(m, w), Base(k, w)), k, m, w,
                              Front(e, k, m), Tail(e, k, m), ddf + cdf)
  {
    RowIdsFacts(e, k, m, rowIds[..]);
    PlacesOf(e, k, m, indToRow[..]);
    TailParts(e, k, m);
    hide *;
    ghost var front, tail := Front(e, k, m), Tail(e, k, m);
    assert forall p :: 0 <= p < rowIds.Length ==> rowIds[p] == rowIds[..][p];
    assert rowIds[..k] == rowIds[..][..k];
    DataRows(k, m, w, B, rowIds, dec, ddf, e, good);
    RebuildCodingDevices(k, m, w, B, rowIds, indToRow, dec, ddf, cdf, front, tail, good);
  }

  /** The rows of the lost coding devices, behind those of the lost data devices. */
  method RebuildCodingDevices(k: nat, m: nat, w: nat, B: array<bool>, rowIds: array<nat>, indToRow: array<nat>, dec: array<bool>,
      ddf: nat, cdf: nat, ghost front: seq<nat>, ghost tail: seq<nat>, ghost good: bool)
    requires w >= 1 && B != dec && B.Length == Base(Base(m, w), Base(k, w)) && k <= rowIds.Length && rowIds[..k] == front
    requires dec.Length == Base(Base(|tail|, w), Base(k, w)) && ddf + cdf == |tail| && k + |tail| <= rowIds.Length
    requires Places(indToRow[..], front, tail, k, ddf)
    requires forall x: nat :: x < |tail| ==> rowIds[k + x] == tail[x]
    requires forall x: nat :: ddf <= x < |tail| ==> k <= tail[x] < k + m
    requires good ==> Building(Rows(dec[..], Base(|tail|, w), Base(k, w)), Rows(B[..], Base(m, w), Base(k, w)), k, m, w, front, tail, ddf)
    modifies dec
    ensures good ==> Building(Rows(dec[..], Base(|tail|, w), Base(k, w)), Rows(B[..], Base(m, w), Base(k, w)), k, m, w, front, tail, |tail|)
  {
    hide *;
    var x: nat := 0;
    while x < cdf
      invariant x <= cdf
      invariant good ==> Building(Rows(dec[..], Base(|tail|, w), Base(k, w)), Rows(B[..], Base(m, w), Base(k, w)), k, m, w, front, tail, ddf + x)
    {
      RebuildCodingDevice(k, m, w, B, rowIds, indToRow, dec, ddf + x, ddf, front, tail, good);
      x := x + 1;
    }
  }

  /** The schedule of the matrix `D` that the flag asks for. */
  ghost predicate Compiled(ops: seq<Op>, D: seq<BitRow>, k: nat, n: nat, w: nat, smart: bool) {
    && Implements(ops, D, k, n, w)
    && if smart then exists order, starts :: OncePerRow(ops, D, k, w, order, starts) else |ops| == TotalWeight(D)
  }

  /** `D` is the matrix whose rows rebuild the lost devices from the stand-ins. */
  method GenerateDecodingSchedule(k: nat, m: nat, w: nat, B: array<bool>, erasures: seq<nat>, smart: bool)
    returns (ok: bool, ops: seq<Op>, ghost D: seq<BitRow>)
    requires w >= 1 && B.Length == Base(Base(m, w), Base(k, w)) && Erasable(erasures, k + m)
    requires smart ==> erasures != []
    ensures ok <==> |erasures| <= m
    ensures ok ==> Decodes(ops, Rows(B[..], Base(m, w), Base(k, w)), k, m, w, Flags(erasures, k + m))
    ensures ok ==> Compiled(ops, D, k, |erasures|, w, smart)
    ensures ok && !BitSingular(FrontBits(Rows(B[..], Base(m, w), Base(k, w)), k, m, w, Flags(erasures, k + m)), Base(k, w)) ==>
      Building(D, Rows(B[..], Base(m, w), Base(k, w)), k, m, w, Front(Flags(erasures, k + m), k, m), Tail(Flags(erasures, k + m), k, m), |erasures|)
  {
    hide Base, Rows, Building, BitSingular, Front, Tail, Restores, Implements, BitInverse, Inverse, RowIds, FrontBits, OncePerRow, TotalWeight;
    ops, D := [], [];
    var ddf, cdf := CountLosses(erasures, k);
    DistinctMembers(erasures);
    CountsAreLosses(erasures, k, m);
    ghost var e := Flags(erasures, k + m);
    var rowIds, indToRow;
    ok, rowIds, indToRow := SetUpIds(k, m, erasures);
    if !ok { return; }
    var K, M := Base(k, w), Base(m, w);
    ghost var R: seq<BitRow> := Rows(B[..], M, K);
    IsMatrix(B[..], M, K);
    ghost var good := !BitSingular(FrontBits(R, k, m, w, e), K);
    var dec := new bool[Base(Base(ddf + cdf, w), K)];
    DecodingRows(k, m, w, B, rowIds, indToRow, dec, ddf, cdf, e, good);
    if smart {
      ghost var order, starts;
      ops, order, starts := SmartBitmatrixToSchedule(k, ddf + cdf, w, dec);
    } else {
      ops := DumbBitmatrixToSchedule(k, ddf + cdf, w, dec);
    }
    D := Rows(dec[..], Base(ddf + cdf, w), K);
    Generated(ops, D, R, k, m, w, e, good);
  }

  lemma Generated(ops: seq<Op>, dec: seq<BitRow>, B: seq<BitRow>, k: nat, m: nat, w: nat, e: seq<bool>, good: bool)
    requires w >= 1 && BitMatrix(B, Base(m, w), Base(k, w)) && Recoverable(e, k, m) && Implements(ops, dec, k, |Tail(e, k, m)|, w)
    requires good == !BitSingular(FrontBits(B, k, m, w, e), Base(k, w))
    requires good ==> Building(dec, B, k, m, w, Front(e, k, m), Tail(e, k, m), |Tail(e, k, m)|)
    ensures Decodes(ops, B, k, m, w, e)
  {
    if good { BuiltRestores(ops, dec, B, k, m, w, e); }
  }

  // ----- running it

  /** After a restoring run all devices are as they were. */
  lemma RestoredAll(orig: Packets, mem0: Packets, mem: Packets, e: seq<bool>, k: nat, m: nat, w: nat)
    requires w >= 1 && Recoverable(e, k, m) && Intact(mem0, orig, e, k + m, w) && SameElsewhere(mem0, mem, RowIds(e, k, m), k + m, w)
    requires Through(mem, RowIds(e, k, m), k + m, w) == Through(orig, RowIds(e, k, m), k + m, w)
    ensures mem == orig
  {
    hide Base, RowIds, Through;
    forall p: nat | p < Base(k + m, w) ensures mem[p] == orig[p] {
      Slots(p, k + m, w);
      var d, x := p / w, p % w;
      if d in RowIds(e, k, m) {
        var i :| 0 <= i < |RowIds(e, k, m)| && RowIds(e, k, m)[i] == d;
        ThroughAt(mem, RowIds(e, k, m), k + m, w, i, x);
        ThroughAt(orig, RowIds(e, k, m), k + m, w, i, x);
      } else {
        if e[d] { LostHasPlace(e, k, m, d); }
        assert SamePacket(mem0, mem, k + m, w, d, x);
        assert SamePacket(mem0, orig, k + m, w, d, x);
      }
    }
  }

  /** `mem` was a codeword `orig` before the devices in `e` were lost, and those can be rebuilt. */
  ghost predicate Damaged(mem: Packets, orig: Packets, B: seq<BitRow>, k: nat, m: nat, w: nat, e: seq<bool>) {
    && w >= 1 && BitMatrix(B, Base(m, w), Base(k, w)) && Recoverable(e, k, m)
    && BitCodeword(B, k, m, w, orig) && Intact(mem, orig, e, k + m, w) && LostNonzero(B, k, m, w, e)
    && !BitSingular(FrontBits(B, k, m, w, e), Base(k, w))
  }

  lemma DecodedAll(ops: seq<Op>, B: seq<BitRow>, k: nat, m: nat, w: nat, e: seq<bool>, orig: Packets, mem0: Packets, mem: Packets)
    requires Decodes(ops, B, k, m, w, e) && Damaged(mem0, orig, B, k, m, w, e) && |mem| == |mem0| == Base(k + m, w)
    requires Through(mem, RowIds(e, k, m), k + m, w) == Run(Through(mem0, RowIds(e, k, m), k + m, w), ops, w)
    requires SameElsewhere(mem0, mem, RowIds(e, k, m), k + m, w)
    ensures mem == orig
  {
    hide BitCodeword, Intact, LostNonzero, BitSingular, RowIds, Through, Run, SameElsewhere, Base;
    IntactSizes(mem0, orig, e, k + m, w);
    assert RunRestores(ops, k, m, w, e, orig, mem0);
    RestoredAll(orig, mem0, mem, e, k, m, w);
  }

  /** Set up the pointers and run a schedule on every stripe. */
  method RunOnPointers(k: nat, m: nat, w: nat, ops: seq<Op>, erasures: seq<nat>, stripes: seq<array<nat>>, ghost B: seq<BitRow>, ghost orig: seq<Packets>)
    returns (ok: bool)
    requires w >= 1 && Stripes(stripes, Base(k + m, w)) && |orig| == |stripes| && forall i :: 0 <= i < |erasures| ==> erasures[i] < k + m
    requires |Members(erasures)| <= m ==> Decodes(ops, B, k, m, w, Flags(erasures, k + m))
    modifies stripes
    ensures ok <==> |Members(erasures)| <= m
    ensures !ok ==> forall t :: 0 <= t < |stripes| ==> stripes[t][..] == old(stripes[t][..])
    ensures forall t :: 0 <= t < |stripes| && Damaged(old(stripes[t][..]), orig[t], B, k, m, w, Flags(erasures, k + m)) ==> ok && stripes[t][..] == orig[t]
  {
    hide Base, Decodes, Damaged, StripeRun, RowIds, Inverse, Recoverable;
    ghost var e := Flags(erasures, k + m);
    var ptrs, unused;
    FlaggedMembers(erasures, k + m);
    forall t | 0 <= t < |stripes| { DamagedRecoverable(stripes[t][..], orig[t], B, k, m, w, e); }
    ok, ptrs, unused := SetUpIds(k, m, erasures);
    RecoverableCount(e, k, m);
    if !ok { return; }
    RowIdsDistinct(e, k, m);
    DecodesFits(ops, B, k, m, w, e);
    ghost var used := |RowIds(e, k, m)|;
    DoOnStripes(stripes, ptrs, used, k + m, w, ops);
    forall t | 0 <= t < |stripes| && Damaged(old(stripes[t][..]), orig[t], B, k, m, w, e) ensures stripes[t][..] == orig[t] {
      assert StripeRun(stripes[t][..], old(stripes[t][..]), RowIds(e, k, m), k + m, w, ops);
      StripeDecoded(ops, B, k, m, w, e, orig[t], old(stripes[t][..]), stripes[t][..]);
    }
  }

  lemma RecoverableCount(e: seq<bool>, k: nat, m: nat)
    ensures Recoverable(e, k, m) ==> |e| == k + m && |Flagged(e, true, 0, k + m)| <= m
  {
  }

  lemma StripeDecoded(ops: seq<Op>, B: seq<BitRow>, k: nat, m: nat, w: nat, e: seq<bool>, orig: Packets, was: Packets, mem: Packets)
    requires Decodes(ops, B, k, m, w, e) && Damaged(was, orig, B, k, m, w, e) && StripeRun(mem, was, RowIds(e, k, m), k + m, w, ops)
    ensures mem == orig
  {
    hide Base, Decodes, Damaged, Through, SameElsewhere, RowIds;
    DecodedAll(ops, B, k, m, w, e, orig, was, mem);
  }

  lemma DamagedRecoverable(mem: Packets, orig: Packets, B: seq<BitRow>, k: nat, m: nat, w: nat, e: seq<bool>)
    ensures Damaged(mem, orig, B, k, m, w, e) ==> Recoverable(e, k, m)
  {
  }

  lemma DecodesFits(ops: seq<Op>, B: seq<BitRow>, k: nat, m: nat, w: nat, e: seq<bool>)
    requires Decodes(ops, B, k, m, w, e)
    ensures Recoverable(e, k, m) && AllFit(ops, |RowIds(e, k, m)|, w) && forall i :: 0 <= i < |RowIds(e, k, m)| ==> RowIds(e, k, m)[i] < k + m
  {
  }

  /** `jerasure_schedule_decode_lazy`: 0, and every device restored in every stripe, or -1. */
  method ScheduleDecodeLazy(k: nat, m: nat, w: nat, B: array<bool>, erasures: seq<nat>, stripes: seq<array<nat>>, smart: bool, ghost orig: seq<Packets>)
    returns (r: int)
    requires w >= 1 && B.Length == Base(Base(m, w), Base(k, w)) && Erasable(erasures, k + m) && Stripes(stripes, Base(k + m, w)) && |orig| == |stripes|
    requires smart ==> erasures != []
    modifies stripes
    ensures r == if |erasures| <= m then 0 else -1
    ensures r == -1 ==> forall t :: 0 <= t < |stripes| ==> stripes[t][..] == old(stripes[t][..])
    ensures forall t :: 0 <= t < |stripes| && Damaged(old(stripes[t][..]), orig[t], Rows(B[..], Base(m, w), Base(k, w)), k, m, w, Flags(erasures, k + m)) ==>
      r == 0 && stripes[t][..] == orig[t]
  {
    hide Base, Rows, Decodes, Damaged, Flags;
    DistinctMembers(erasures);
    var ok, ops, _ := GenerateDecodingSchedule(k, m, w, B, erasures, smart);
    ok := RunOnPointers(k, m, w, ops, erasures, stripes, Rows(B[..], Base(m, w), Base(k, w)), orig);
    r := if ok then 0 else -1;
  }
}
