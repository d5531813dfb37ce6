/** Schedules of packet copies and exclusive ors: what running one does, and the pieces from
    which the schedulers build them. */
module Schedule {
  import opened Bits
  import opened RowMajor
  import opened BitAlgebra

  /** `operations[op][0..4]`: copy or xor packet `srcPkt` of device `srcDev` into packet `dstPkt`
      of device `dstDev`. */
  datatype Op = Op(srcDev: nat, srcPkt: nat, dstDev: nat, dstPkt: nat, xor: bool)

  /** The packets of all devices, one device after the other. */
  function Slot(dev: nat, pkt: nat, w: nat): nat { Base(dev, w) + pkt }

  predicate Fits(op: Op, n: nat, w: nat) {
    op.srcDev < n && op.dstDev < n && op.srcPkt < w && op.dstPkt < w
  }

  predicate AllFit(ops: seq<Op>, n: nat, w: nat) { forall i :: 0 <= i < |ops| ==> Fits(ops[i], n, w) }

  /** One operation on the packets `L`. */
  function Do(L: Packets, op: Op, w: nat): (r: Packets)
    ensures |r| == |L|
  {
    var s, d := Slot(op.srcDev, op.srcPkt, w), Slot(op.dstDev, op.dstPkt, w);
    if s < |L| && d < |L| then L[d := if op.xor then Xor(L[s], L[d]) else L[s]] else L
  }

  /** A whole schedule. */
  function Run(L: Packets, ops: seq<Op>, w: nat): (r: Packets)
    ensures |r| == |L|
    decreases |ops|
  {
    if ops == [] then L else Do(Run(L, ops[..|ops| - 1], w), ops[|ops| - 1], w)
  }

  lemma RunAppend(L: Packets, ops: seq<Op>, op: Op, w: nat)
    ensures Run(L, ops + [op], w) == Do(Run(L, ops, w), op, w)
  {
    assert (ops + [op])[..|ops|] == ops;
  }

  lemma {:induction false} RunConcat(L: Packets, a: seq<Op>, b: seq<Op>, w: nat)
    ensures Run(L, a + b, w) == Run(Run(L, a, w), b, w)
    decreases |b|
  {
    if b == [] {
      assert a + b == a;
    } else {
      var c, op := b[..|b| - 1], b[|b| - 1];
      RunConcat(L, a, c, w);
      assert a + b == (a + c) + [op];
      RunAppend(L, a + c, op, w);
    }
  }

  /** Packet `j` counted through all devices, and packet `i` counted from device `k` on. */
  lemma Slots(j: nat, k: nat, w: nat)
    requires w >= 1
    ensures j % w < w && Slot(j / w, j % w, w) == j
    ensures Slot(k + j / w, j % w, w) == Base(k, w) + j
    ensures j < Base(k, w) <==> j / w < k
  {
    assert j / w * w + j % w == j;
    assert (k + j / w) * w == k * w + j / w * w;
    if j / w < k { BaseBefore(j / w, k, w); }
    if k <= j / w { assert (j / w - k) * w >= 0; }
  }

  // ----- what a bit matrix asks for

  /** The number of ones among the first `n` bits. */
  function Weight(row: BitRow, n: nat): nat
    requires n <= |row|
  {
    if n == 0 then 0 else Weight(row, n - 1) + if row[n - 1] then 1 else 0
  }

  lemma {:induction false} WeightBound(row: BitRow, n: nat)
    requires n <= |row|
    ensures Weight(row, n) <= n
    ensures Weight(row, n) == 0 <==> forall j :: 0 <= j < n ==> !row[j]
  {
    if n > 0 { WeightBound(row, n - 1); }
  }

  lemma {:induction false} WeightXorZero(a: BitRow, b: BitRow, n: nat)
    requires |a| == |b| && n <= |a| && Weight(a, n) == 0
    ensures Weight(RowXor(a, b), n) == Weight(b, n)
  {
    if n > 0 { WeightXorZero(a, b, n - 1); }
  }

  lemma RowXorComm(a: BitRow, b: BitRow)
    requires |a| == |b|
    ensures RowXor(a, b) == RowXor(b, a)
  {
  }

  lemma WeightNone(row: BitRow, x: Packets, n: nat)
    requires n <= |row| && n <= |x| && Weight(row, n) == 0
    ensures Select(row, x, n) == 0
  {
    WeightBound(row, n);
    SelectNone(row, x, n);
  }

  /** Packet `i` of the coding devices: the sum its row selects.  A row without ones selects
      nothing, and all the coding routines then leave the packet as it was. */
  ghost function CodingPacket(B: seq<BitRow>, L: Packets, K: nat, i: nat): nat
    requires i < |B| && |B[i]| == K && K + i < |L|
  {
    if Weight(B[i], K) == 0 then L[K + i] else Select(B[i], L, K)
  }

  /** The packets after encoding: the first `K` unchanged, the coding packets computed. */
  ghost function Encoded(B: seq<BitRow>, L: Packets, K: nat): (r: Packets)
    requires BitMatrix(B, |B|, K) && |L| == K + |B|
    ensures |r| == |L| && (forall s :: 0 <= s < K ==> r[s] == L[s])
    ensures forall i :: 0 <= i < |B| ==> r[K + i] == CodingPacket(B, L, K, i)
  {
    L[..K] + seq(|B|, i requires 0 <= i < |B| => CodingPacket(B, L, K, i))
  }

  /** The schedule computes what the bit matrix asks for, whatever the packets hold. */
  ghost predicate Implements(ops: seq<Op>, B: seq<BitRow>, k: nat, m: nat, w: nat) {
    && BitMatrix(B, Base(m, w), Base(k, w)) && AllFit(ops, k + m, w)
    && forall L: Packets :: |L| == Base(k, w) + Base(m, w) ==> Run(L, ops, w) == Encoded(B, L, Base(k, w))
  }

  // ----- the operations for one row

  /** From data packet `j` to coding packet `i`, both counted through their devices. */
  function PacketOp(k: nat, w: nat, j: nat, i: nat, xor: bool): Op
    requires w >= 1
  {
    Op(j / w, j % w, k + i / w, i % w, xor)
  }

  /** Copy the first selected packet, xor the others. */
  function PlainOps(row: BitRow, k: nat, w: nat, i: nat, n: nat): seq<Op>
    requires w >= 1 && n <= |row|
  {
    if n == 0 then [] else
      var p := PlainOps(row, k, w, i, n - 1);
      if row[n - 1] then p + [PacketOp(k, w, n - 1, i, p != [])] else p
  }

  /** Xor every selected packet. */
  function PatchOps(row: BitRow, k: nat, w: nat, i: nat, n: nat): seq<Op>
    requires w >= 1 && n <= |row|
  {
    if n == 0 then [] else
      var p := PatchOps(row, k, w, i, n - 1);
      if row[n - 1] then p + [PacketOp(k, w, n - 1, i, true)] else p
  }

  /** Start from the finished coding packet `f`. */
  function CopyOp(k: nat, w: nat, f: nat, i: nat): Op
    requires w >= 1
  {
    Op(k + f / w, f % w, k + i / w, i % w, false)
  }

  lemma PacketSlots(k: nat, w: nat, j: nat, i: nat, xor: bool)
    requires w >= 1
    ensures var op := PacketOp(k, w, j, i, xor);
      Slot(op.srcDev, op.srcPkt, w) == j && Slot(op.dstDev, op.dstPkt, w) == Base(k, w) + i && op.xor == xor
  {
    Slots(j, k, w);
    Slots(i, k, w);
  }

  lemma CopySlots(k: nat, w: nat, f: nat, i: nat)
    requires w >= 1
    ensures var op := CopyOp(k, w, f, i);
      Slot(op.srcDev, op.srcPkt, w) == Base(k, w) + f && Slot(op.dstDev, op.dstPkt, w) == Base(k, w) + i && !op.xor
  {
    Slots(f, k, w);
    Slots(i, k, w);
  }

  lemma {:induction false} RowOpsFit(row: BitRow, k: nat, m: nat, w: nat, i: nat, n: nat)
    requires w >= 1 && n <= |row| == Base(k, w) && i < Base(m, w)
    ensures AllFit(PlainOps(row, k, w, i, n), k + m, w) && AllFit(PatchOps(row, k, w, i, n), k + m, w)
    ensures |PlainOps(row, k, w, i, n)| == |PatchOps(row, k, w, i, n)| == Weight(row, n)
  {
    hide Base;
    if n > 0 {
      RowOpsFit(row, k, m, w, i, n - 1);
      Slots(n - 1, k, w);
      Slots(i, m, w);
    }
  }

  lemma CopyFits(k: nat, m: nat, w: nat, f: nat, i: nat)
    requires w >= 1 && i < Base(m, w) && f < Base(m, w)
    ensures Fits(CopyOp(k, w, f, i), k + m, w)
  {
    Slots(f, m, w);
    Slots(i, m, w);
  }

  lemma {:induction false} PlainRun(L: Packets, row: BitRow, k: nat, w: nat, i: nat, n: nat)
    requires w >= 1 && n <= |row| == Base(k, w) && Base(k, w) + i < |L|
    ensures var d := Base(k, w) + i;
      Run(L, PlainOps(row, k, w, i, n), w) == L[d := if Weight(row, n) == 0 then L[d] else Select(row, L, n)]
  {
    hide Base, Xor, Slot, Select, Do, Run, PacketOp;
    var d := Base(k, w) + i;
    if n == 0 {
      EmptyPatch(L, row, w);
    } else {
      PlainRun(L, row, k, w, i, n - 1);
      SelectStep(row, L, n);
      if row[n - 1] {
        var p := PlainOps(row, k, w, i, n - 1);
        var op := PacketOp(k, w, n - 1, i, p != []);
        RunAppend(L, p, op, w);
        PacketSlots(k, w, n - 1, i, p != []);
        PlainLength(row, k, w, i, n - 1);
        if p == [] {
          WeightNone(row, L, n - 1);
          XorUnit(L[n - 1]);
          CopyInto(L, op, w, n - 1, d);
        } else {
          XorOver(L, op, w, n - 1, d, Select(row, L, n - 1));
        }
      }
    }
  }

  lemma CopyInto(L: Packets, op: Op, w: nat, s: nat, d: nat)
    requires s < d < |L| && !op.xor && Slot(op.srcDev, op.srcPkt, w) == s && Slot(op.dstDev, op.dstPkt, w) == d
    ensures Do(L[d := L[d]], op, w) == L[d := L[s]]
  {
    assert L[d := L[d]] == L;
  }

  lemma XorOver(L: Packets, op: Op, w: nat, s: nat, d: nat, v: nat)
    requires s < d < |L| && op.xor && Slot(op.srcDev, op.srcPkt, w) == s && Slot(op.dstDev, op.dstPkt, w) == d
    ensures Do(L[d := v], op, w) == L[d := Xor(v, L[s])]
  {
    hide Base, Xor, Slot;
    XorComm(L[s], v);
  }

  lemma {:induction false} PlainLength(row: BitRow, k: nat, w: nat, i: nat, n: nat)
    requires w >= 1 && n <= |row|
    ensures |PlainOps(row, k, w, i, n)| == Weight(row, n)
  {
    if n > 0 { PlainLength(row, k, w, i, n - 1); }
  }

  lemma {:induction false} PatchRun(L: Packets, row: BitRow, k: nat, w: nat, i: nat, n: nat)
    requires w >= 1 && n <= |row| == Base(k, w) && Base(k, w) + i < |L|
    ensures var d := Base(k, w) + i;
      Run(L, PatchOps(row, k, w, i, n), w) == L[d := Xor(L[d], Select(row, L, n))]
  {
    hide Base, Xor, Slot, Select, Do, Run, PacketOp;
    var d := Base(k, w) + i;
    XorUnit(L[d]);
    if n == 0 { assert Select(row, L, n) == 0 && Run(L, [], w) == L by { EmptyPatch(L, row, w); } }
    if n > 0 {
      PatchRun(L, row, k, w, i, n - 1);
      SelectStep(row, L, n);
      if row[n - 1] {
        var p := PatchOps(row, k, w, i, n - 1);
        var op := PacketOp(k, w, n - 1, i, true);
        RunAppend(L, p, op, w);
        PacketSlots(k, w, n - 1, i, true);
        var s := Select(row, L, n - 1);
        XorInto(L, op, w, n - 1, d, s);
      }
    }
  }

  lemma EmptyPatch(L: Packets, row: BitRow, w: nat)
    ensures Run(L, [], w) == L && Select(row, L, 0) == 0
  {
  }

  lemma XorInto(L: Packets, op: Op, w: nat, s: nat, d: nat, v: nat)
    requires s < d < |L| && op.xor && Slot(op.srcDev, op.srcPkt, w) == s && Slot(op.dstDev, op.dstPkt, w) == d
    ensures Do(L[d := Xor(L[d], v)], op, w) == L[d := Xor(L[d], Xor(v, L[s]))]
  {
    hide Base, Xor, Slot;
    XorComm(L[s], Xor(L[d], v));
    XorAssoc(L[d], v, L[s]);
  }

  // ----- a schedule under construction

  /** The packets after the rows in `done` have been emitted. */
  ghost predicate Emitted(R: Packets, L: Packets, B: seq<BitRow>, K: nat, done: seq<bool>)
    requires BitMatrix(B, |B|, K) && |L| == K + |B| && |done| == |B|
  {
    && |R| == |L|
    && (forall s :: 0 <= s < K ==> R[s] == L[s])
    && (forall i :: 0 <= i < |B| ==> R[K + i] == if done[i] then CodingPacket(B, L, K, i) else L[K + i])
  }

  ghost predicate Scheduled(ops: seq<Op>, B: seq<BitRow>, k: nat, m: nat, w: nat, done: seq<bool>) {
    && BitMatrix(B, Base(m, w), Base(k, w)) && |done| == |B| && AllFit(ops, k + m, w)
    && forall L: Packets :: |L| == Base(k, w) + |B| ==> Emitted(Run(L, ops, w), L, B, Base(k, w), done)
  }

  lemma NothingScheduled(B: seq<BitRow>, k: nat, m: nat, w: nat, done: seq<bool>)
    requires BitMatrix(B, Base(m, w), Base(k, w)) && |done| == |B| && forall i :: 0 <= i < |done| ==> !done[i]
    ensures Scheduled([], B, k, m, w, done)
  {
  }

  lemma AllScheduled(ops: seq<Op>, B: seq<BitRow>, k: nat, m: nat, w: nat, done: seq<bool>)
    requires Scheduled(ops, B, k, m, w, done) && forall i :: 0 <= i < |done| ==> done[i]
    ensures Implements(ops, B, k, m, w)
  {
    hide Base, Run, Encoded, Emitted;
    var K := Base(k, w);
    forall L: Packets | |L| == K + Base(m, w) ensures Run(L, ops, w) == Encoded(B, L, K) {
      assert Emitted(Run(L, ops, w), L, B, K, done);
      AllEmitted(Run(L, ops, w), L, B, K, done);
    }
  }

  lemma AllEmitted(R: Packets, L: Packets, B: seq<BitRow>, K: nat, done: seq<bool>)
    requires BitMatrix(B, |B|, K) && |L| == K + |B| && |done| == |B| && Emitted(R, L, B, K, done)
    requires forall i :: 0 <= i < |done| ==> done[i]
    ensures R == Encoded(B, L, K)
  {
    hide CodingPacket, Encoded;
    var E := Encoded(B, L, K);
    forall s | 0 <= s < |L| ensures R[s] == E[s] {
      if s >= K {
        var i := s - K;
        assert E[K + i] == CodingPacket(B, L, K, i) && R[K + i] == CodingPacket(B, L, K, i);
      }
    }
  }

  lemma EmitPlain(ops: seq<Op>, B: seq<BitRow>, k: nat, m: nat, w: nat, done: seq<bool>, i: nat)
    requires w >= 1 && Scheduled(ops, B, k, m, w, done) && i < |B| && !done[i]
    ensures |B[i]| == Base(k, w)
    ensures Scheduled(ops + PlainOps(B[i], k, w, i, |B[i]|), B, k, m, w, done[i := true])
  {
    var K := Base(k, w);
    var more := PlainOps(B[i], k, w, i, |B[i]|);
    RowOpsFit(B[i], k, m, w, i, K);
    forall L: Packets | |L| == K + |B| ensures Emitted(Run(L, ops + more, w), L, B, K, done[i := true]) {
      EmitPlainOn(L, ops, B, k, w, done, i);
    }
  }

  lemma EmitPlainOn(L: Packets, ops: seq<Op>, B: seq<BitRow>, k: nat, w: nat, done: seq<bool>, i: nat)
    requires w >= 1 && BitMatrix(B, |B|, Base(k, w)) && |L| == Base(k, w) + |B| && |done| == |B|
    requires Emitted(Run(L, ops, w), L, B, Base(k, w), done) && i < |B| && !done[i]
    ensures Emitted(Run(L, ops + PlainOps(B[i], k, w, i, |B[i]|), w), L, B, Base(k, w), done[i := true])
  {
    var K, R := Base(k, w), Run(L, ops, w);
    RunConcat(L, ops, PlainOps(B[i], k, w, i, K), w);
    PlainRun(R, B[i], k, w, i, K);
    SelectSame(B[i], B[i], R, L, K);
  }

  /** A row emitted from a finished one: copy that packet and xor the difference. */
  function FromOps(B: seq<BitRow>, k: nat, w: nat, f: nat, i: nat): seq<Op>
    requires w >= 1 && f < |B| && i < |B| && |B[f]| == |B[i]|
  {
    [CopyOp(k, w, f, i)] + PatchOps(RowXor(B[i], B[f]), k, w, i, |B[i]|)
  }

  lemma EmitFrom(ops: seq<Op>, B: seq<BitRow>, k: nat, m: nat, w: nat, done: seq<bool>, f: nat, i: nat)
    requires w >= 1 && Scheduled(ops, B, k, m, w, done) && i < |B| && !done[i] && f < |B| && done[f]
    requires |B[f]| == |B[i]| && Weight(B[f], |B[f]|) > 0 && Weight(B[i], |B[i]|) > 0
    ensures Scheduled(ops + FromOps(B, k, w, f, i), B, k, m, w, done[i := true])
    ensures |FromOps(B, k, w, f, i)| == 1 + Weight(RowXor(B[i], B[f]), |B[i]|)
  {
    var K := Base(k, w);
    RowOpsFit(RowXor(B[i], B[f]), k, m, w, i, K);
    CopyFits(k, m, w, f, i);
    forall L: Packets | |L| == K + |B| ensures Emitted(Run(L, ops + FromOps(B, k, w, f, i), w), L, B, K, done[i := true]) {
      EmitFromOn(L, ops, B, k, w, done, f, i);
    }
  }

  lemma EmitFromOn(L: Packets, ops: seq<Op>, B: seq<BitRow>, k: nat, w: nat, done: seq<bool>, f: nat, i: nat)
    requires w >= 1 && BitMatrix(B, |B|, Base(k, w)) && |L| == Base(k, w) + |B| && |done| == |B|
    requires Emitted(Run(L, ops, w), L, B, Base(k, w), done) && i < |B| && !done[i] && f < |B| && done[f]
    requires Weight(B[f], Base(k, w)) > 0 && Weight(B[i], Base(k, w)) > 0
    ensures Emitted(Run(L, ops + FromOps(B, k, w, f, i), w), L, B, Base(k, w), done[i := true])
  {
    hide Base, Xor, Run, Select, PatchOps, CopyOp, Weight, RowXor;
    var K, R := Base(k, w), Run(L, ops, w);
    FromRun(R, B, k, w, f, i);
    RunConcat(L, ops, FromOps(B, k, w, f, i), w);
    DifferenceSum(B, R, L, K, f, i);
  }

  /** Copying packet `f` and patching it with the difference of the rows. */
  lemma FromRun(R: Packets, B: seq<BitRow>, k: nat, w: nat, f: nat, i: nat)
    requires w >= 1 && BitMatrix(B, |B|, Base(k, w)) && |R| == Base(k, w) + |B| && f < |B| && i < |B|
    ensures var K := Base(k, w);
      Run(R, FromOps(B, k, w, f, i), w) == R[K + i := Xor(R[K + f], Select(RowXor(B[i], B[f]), R, K))]
  {
    hide Base, Xor, Run, Select, PatchOps, RowXor, Do;
    var K, d := Base(k, w), RowXor(B[i], B[f]);
    assert |d| == K by { RowXorLength(B[i], B[f]); }
    var copy, patch := CopyOp(k, w, f, i), PatchOps(d, k, w, i, K);
    RunConcat(R, [copy], patch, w);
    OneCopy(R, copy, k, w, f, i);
    var C := R[K + i := R[K + f]];
    PatchRun(C, d, k, w, i, K);
    SelectSame(d, d, C, R, K);
  }

  lemma RowXorLength(a: BitRow, b: BitRow)
    requires |a| == |b|
    ensures |RowXor(a, b)| == |a|
  {
  }

  lemma OneCopy(R: Packets, copy: Op, k: nat, w: nat, f: nat, i: nat)
    requires w >= 1 && copy == CopyOp(k, w, f, i) && Base(k, w) + f < |R| && Base(k, w) + i < |R|
    ensures Run(R, [copy], w) == R[Base(k, w) + i := R[Base(k, w) + f]]
  {
    hide Base, Slot, CopyOp;
    RunAppend(R, [], copy, w);
    assert [] + [copy] == [copy];
    CopySlots(k, w, f, i);
  }

  lemma DifferenceSum(B: seq<BitRow>, R: Packets, L: Packets, K: nat, f: nat, i: nat)
    requires BitMatrix(B, |B|, K) && |R| == |L| == K + |B| && f < |B| && i < |B|
    requires (forall s :: 0 <= s < K ==> R[s] == L[s]) && R[K + f] == Select(B[f], L, K)
    ensures Xor(R[K + f], Select(RowXor(B[i], B[f]), R, K)) == Select(B[i], L, K)
  {
    hide Xor, Select;
    var d := RowXor(B[i], B[f]);
    SelectSame(d, d, R, L, K);
    SelectXor(B[i], B[f], L, K);
    var x, y := Select(B[i], L, K), Select(B[f], L, K);
    XorComm(x, y);
    XorCancel(y, x);
  }

  // ----- counting operations

  /** The ones in the rows below `n` that are not done. */
  function Remaining(B: seq<BitRow>, done: seq<bool>, n: nat): nat
    requires n <= |B| == |done|
  {
    if n == 0 then 0 else Remaining(B, done, n - 1) + if done[n - 1] then 0 else Weight(B[n - 1], |B[n - 1]|)
  }

  /** The ones of the whole matrix. */
  function TotalWeight(B: seq<BitRow>): nat { Remaining(B, seq(|B|, _ => false), |B|) }

  lemma {:induction false} RemainingStep(B: seq<BitRow>, done: seq<bool>, i: nat, n: nat)
    requires n <= |B| == |done| && i < |B| && !done[i]
    ensures Remaining(B, done, n) == Remaining(B, done[i := true], n) + if i < n then Weight(B[i], |B[i]|) else 0
  {
    if n > 0 { RemainingStep(B, done, i, n - 1); }
  }

  lemma {:induction false} RemainingNone(B: seq<BitRow>, done: seq<bool>, n: nat)
    requires n <= |B| == |done| && forall i :: 0 <= i < n ==> done[i]
    ensures Remaining(B, done, n) == 0
  {
    if n > 0 { RemainingNone(B, done, n - 1); }
  }

  /** The schedule table holds k * m * w * w operations and the end mark. */
  lemma {:induction false} RemainingBound(B: seq<BitRow>, done: seq<bool>, K: nat, n: nat)
    requires n <= |B| == |done| && BitMatrix(B, |B|, K)
    ensures Remaining(B, done, n) <= Base(n, K)
  {
    BaseStep(0, K);
    if n > 0 {
      RemainingBound(B, done, K, n - 1);
      BaseStep(n - 1, K);
      WeightBound(B[n - 1], K);
    }
  }

  lemma TotalBound(B: seq<BitRow>, K: nat)
    requires BitMatrix(B, |B|, K)
    ensures TotalWeight(B) <= Base(|B|, K)
  {
    RemainingBound(B, seq(|B|, _ => false), K, |B|);
  }
}
