/** Which rows of bits rebuild a lost packet from the packets of the survivors. */
module BitDecoding {
  import opened Bits
  import opened RowMajor
  import opened BitAlgebra
  import opened Schedule
  import opened PacketOps

  function UnitBits(n: nat, p: nat): (row: BitRow)
    ensures |row| == n && forall j :: 0 <= j < n ==> row[j] == (j == p)
  {
    seq(n, j => j == p)
  }

  /** What packet `x` of device `d` is made of: a data packet, or a row of the coding matrix. */
  function DeviceBits(B: seq<BitRow>, k: nat, m: nat, w: nat, d: nat, x: nat): (row: BitRow)
    requires BitMatrix(B, Base(m, w), Base(k, w)) && d < k + m && x < w
    ensures |row| == Base(k, w)
  {
    if d < k then UnitBits(Base(k, w), Base(d, w) + x)
    else
      BaseBefore(d - k, m, w);
      B[Base(d - k, w) + x]
  }

  /** The bit rows of the listed devices: the matrix the decoders invert. */
  function SurvivorBits(B: seq<BitRow>, k: nat, m: nat, w: nat, ids: seq<nat>): (S: seq<BitRow>)
    requires w >= 1 && BitMatrix(B, Base(m, w), Base(k, w)) && forall i :: 0 <= i < |ids| ==> ids[i] < k + m
    ensures BitMatrix(S, Base(|ids|, w), Base(k, w))
  {
    seq(Base(|ids|, w), p requires 0 <= p < Base(|ids|, w) =>
      (PacketIndex(ids, k + m, w, p); DeviceBits(B, k, m, w, ids[p / w], p % w)))
  }

  lemma SurvivorAt(B: seq<BitRow>, k: nat, m: nat, w: nat, ids: seq<nat>, i: nat, x: nat)
    requires w >= 1 && BitMatrix(B, Base(m, w), Base(k, w)) && (forall i :: 0 <= i < |ids| ==> ids[i] < k + m)
    requires i < |ids| && x < w
    ensures Base(i, w) + x < Base(|ids|, w)
    ensures SurvivorBits(B, k, m, w, ids)[Base(i, w) + x] == DeviceBits(B, k, m, w, ids[i], x)
  {
    BaseBefore(i, |ids|, w);
    ModUnique(Base(i, w) + x, w, i, x);
  }

  /** Every coding packet is the sum its row selects. */
  ghost predicate BitCodeword(B: seq<BitRow>, k: nat, m: nat, w: nat, mem: Packets) {
    && BitMatrix(B, Base(m, w), Base(k, w)) && |mem| == Base(k, w) + Base(m, w) == Base(k + m, w)
    && forall i :: 0 <= i < |B| ==> mem[Base(k, w) + i] == Select(B[i], mem[..Base(k, w)], Base(k, w))
  }

  lemma CodewordPacket(B: seq<BitRow>, k: nat, m: nat, w: nat, mem: Packets, d: nat, x: nat)
    requires BitCodeword(B, k, m, w, mem) && d < k + m && x < w
    ensures Base(d, w) + x < |mem| && mem[Base(d, w) + x] == Select(DeviceBits(B, k, m, w, d, x), mem[..Base(k, w)], Base(k, w))
  {
    hide Base, Select;
    var K := Base(k, w);
    BaseBefore(d, k + m, w);
    if d < k {
      BaseBefore(d, k, w);
      SelectUnit(UnitBits(K, Base(d, w) + x), mem[..K], Base(d, w) + x, K);
    } else {
      BaseSum(k, d - k, w);
      BaseBefore(d - k, m, w);
      var i := Base(d - k, w) + x;
      assert mem[K + i] == Select(B[i], mem[..K], K);
    }
  }

  /** Encoding produces a codeword, as long as no coding row is zero. */
  lemma EncodedIsCodeword(B: seq<BitRow>, k: nat, m: nat, w: nat, L: Packets)
    requires BitMatrix(B, Base(m, w), Base(k, w)) && |L| == Base(k + m, w)
    requires forall i :: 0 <= i < |B| ==> Weight(B[i], Base(k, w)) > 0
    ensures |L| == Base(k, w) + |B| && BitCodeword(B, k, m, w, Encoded(B, L, Base(k, w)))
  {
    hide Base, Select, Encoded, Weight;
    BaseSum(k, m, w);
    var K := Base(k, w);
    var E := Encoded(B, L, K);
    forall i | 0 <= i < |B| ensures E[K + i] == Select(B[i], E[..K], K) {
      assert Weight(B[i], K) > 0 && E[K + i] == CodingPacket(B, L, K, i);
      SelectSame(B[i], B[i], L, E[..K], K);
    }
  }

  /** The survivors' packets are the survivor matrix applied to the data. */
  lemma SurvivorPackets(B: seq<BitRow>, k: nat, m: nat, w: nat, mem: Packets, ids: seq<nat>)
    requires w >= 1 && BitCodeword(B, k, m, w, mem) && forall i :: 0 <= i < |ids| ==> ids[i] < k + m
    ensures Through(mem, ids, k + m, w) == BitApply(SurvivorBits(B, k, m, w, ids), mem[..Base(k, w)])
  {
    hide Base, Select;
    var L, S := Through(mem, ids, k + m, w), SurvivorBits(B, k, m, w, ids);
    forall p: nat | p < Base(|ids|, w) ensures L[p] == BitApply(S, mem[..Base(k, w)])[p] {
      PacketIndex(ids, k + m, w, p);
      CodewordPacket(B, k, m, w, mem, ids[p / w], p % w);
    }
  }

  // ----- rows that rebuild

  /** Applied to what `S` makes of the data, `a` gives what `p` gives on the data. */
  ghost predicate Rebuilds(a: BitRow, S: seq<BitRow>, p: BitRow, K: nat) {
    && BitMatrix(S, K, K) && |a| == |p| == K
    && forall D: Packets :: |D| == K ==> Select(a, BitApply(S, D), K) == Select(p, D, K)
  }

  lemma RebuildsXor(a: BitRow, b: BitRow, S: seq<BitRow>, p: BitRow, q: BitRow, K: nat)
    requires Rebuilds(a, S, p, K) && Rebuilds(b, S, q, K)
    ensures Rebuilds(RowXor(a, b), S, RowXor(p, q), K)
  {
    hide Select;
    forall D: Packets | |D| == K ensures Select(RowXor(a, b), BitApply(S, D), K) == Select(RowXor(p, q), D, K) {
      SelectXor(a, b, BitApply(S, D), K);
      SelectXor(p, q, D, K);
    }
  }

  /** A row of the inverse rebuilds a data packet. */
  lemma InverseRebuilds(inv: seq<BitRow>, S: seq<BitRow>, K: nat, c: nat)
    requires BitMatrix(inv, K, K) && BitMatrix(S, K, K) && BitInverse(inv, S, K) && c < K
    ensures Rebuilds(inv[c], S, UnitBits(K, c), K)
  {
    hide Select;
    forall D: Packets | |D| == K ensures Select(inv[c], BitApply(S, D), K) == Select(UnitBits(K, c), D, K) {
      assert BitApply(inv, BitApply(S, D))[c] == D[c];
      SelectUnit(UnitBits(K, c), D, c, K);
    }
  }

  /** A row that only uses packets of devices standing at their own place rebuilds itself. */
  lemma KeptRebuilds(a: BitRow, S: seq<BitRow>, K: nat)
    requires BitMatrix(S, K, K) && |a| == K
    requires forall c :: 0 <= c < K && a[c] ==> S[c] == UnitBits(K, c)
    ensures Rebuilds(a, S, a, K)
  {
    hide Select;
    forall D: Packets | |D| == K ensures Select(a, BitApply(S, D), K) == Select(a, D, K) {
      forall c | 0 <= c < K && a[c] ensures BitApply(S, D)[c] == D[c] {
        SelectUnit(S[c], D, c, K);
      }
      SelectSame(a, a, BitApply(S, D), D, K);
    }
  }

  /** A row that rebuilds something that is not always zero has a one. */
  lemma RebuilderNonzero(a: BitRow, S: seq<BitRow>, p: BitRow, K: nat)
    requires Rebuilds(a, S, p, K) && Weight(p, K) > 0
    ensures Weight(a, K) > 0
  {
    if Weight(a, K) == 0 {
      WeightBound(p, K);
      var c :| 0 <= c < K && p[c];
      SelectsItsColumn(p, c, K);
      var D := UnitPackets(K, c);
      WeightNone(a, BitApply(S, D), K);
    }
  }

  function UnitPackets(K: nat, c: nat): (D: Packets)
    ensures |D| == K && forall j :: 0 <= j < K ==> D[j] == if j == c then 1 else 0
  {
    seq(K, j => if j == c then 1 else 0)
  }

  lemma SelectsItsColumn(p: BitRow, c: nat, K: nat)
    requires c < K == |p| && p[c]
    ensures Select(p, UnitPackets(K, c), K) == 1
  {
    var zero: Packets := seq(K, _ => 0);
    assert UnitPackets(K, c) == zero[c := 1];
    SelectFill(p, zero, c, 1, K);
    SelectNone(p, zero, K);
  }

  // ----- all lost packets at once

  /** Block row `x` of `dec` rebuilds device `tail[x]`. */
  ghost predicate RebuildsAll(dec: seq<BitRow>, B: seq<BitRow>, k: nat, m: nat, w: nat, S: seq<BitRow>, tail: seq<nat>, n: nat) {
    && BitMatrix(dec, |dec|, Base(k, w)) && Base(|tail|, w) <= |dec| && BitMatrix(B, Base(m, w), Base(k, w)) && n <= |tail|
    && (forall x :: 0 <= x < |tail| ==> tail[x] < k + m)
    && forall x: nat, y: nat :: x < n && y < w ==> RebuildsBlock(dec, B, k, m, w, S, tail, x, y)
  }

  ghost predicate RebuildsBlock(dec: seq<BitRow>, B: seq<BitRow>, k: nat, m: nat, w: nat, S: seq<BitRow>, tail: seq<nat>, x: nat, y: nat)
    requires BitMatrix(dec, |dec|, Base(k, w)) && Base(|tail|, w) <= |dec| && BitMatrix(B, Base(m, w), Base(k, w))
    requires x < |tail| && tail[x] < k + m && y < w
  {
    BaseBefore(x, |tail|, w);
    Rebuilds(dec[Base(x, w) + y], S, DeviceBits(B, k, m, w, tail[x], y), Base(k, w))
  }

  ghost predicate NonzeroBits(B: seq<BitRow>, k: nat, m: nat, w: nat, d: nat)
    requires BitMatrix(B, Base(m, w), Base(k, w)) && d < k + m
  {
    forall x: nat :: x < w ==> Weight(DeviceBits(B, k, m, w, d, x), Base(k, w)) > 0
  }

  lemma DataBitsNonzero(B: seq<BitRow>, k: nat, m: nat, w: nat, d: nat)
    requires BitMatrix(B, Base(m, w), Base(k, w)) && d < k
    ensures NonzeroBits(B, k, m, w, d)
  {
    forall x: nat | x < w ensures Weight(DeviceBits(B, k, m, w, d, x), Base(k, w)) > 0 {
      BaseBefore(d, k, w);
      WeightBound(DeviceBits(B, k, m, w, d, x), Base(k, w));
      assert DeviceBits(B, k, m, w, d, x)[Base(d, w) + x];
    }
  }

  /** The packets the schedule works on: the survivors in front, the lost devices behind. */
  lemma FrontAndTail(mem: Packets, front: seq<nat>, tail: seq<nat>, n: nat, w: nat)
    requires w >= 1 && |mem| == Base(n, w) && (forall i :: 0 <= i < |front + tail| ==> (front + tail)[i] < n)
    requires (forall i :: 0 <= i < |front| ==> front[i] < n) && (forall i :: 0 <= i < |tail| ==> tail[i] < n)
    ensures Through(mem, front + tail, n, w) == Through(mem, front, n, w) + Through(mem, tail, n, w)
  {
    var all := front + tail;
    BaseSum(|front|, |tail|, w);
    forall p: nat | p < Base(|all|, w)
      ensures Through(mem, all, n, w)[p] == (Through(mem, front, n, w) + Through(mem, tail, n, w))[p]
    {
      PacketIndex(all, n, w, p);
      if p < Base(|front|, w) {
        PacketIndex(front, n, w, p);
      } else {
        var q := p - Base(|front|, w);
        PacketIndex(tail, n, w, q);
        Slots(q, |front|, w);
        ModUnique(p, w, |front| + q / w, q % w);
      }
    }
  }

  /** The premises of a restoring schedule. */
  ghost predicate Rebuildable(dec: seq<BitRow>, B: seq<BitRow>, k: nat, m: nat, w: nat, front: seq<nat>, tail: seq<nat>) {
    && w >= 1 && |front| == k && BitMatrix(B, Base(m, w), Base(k, w))
    && (forall i :: 0 <= i < |front| ==> front[i] < k + m) && (forall i :: 0 <= i < |tail| ==> tail[i] < k + m)
    && RebuildsAll(dec, B, k, m, w, SurvivorBits(B, k, m, w, front), tail, |tail|) && |dec| == Base(|tail|, w)
    && forall x :: 0 <= x < |tail| ==> NonzeroBits(B, k, m, w, tail[x])
  }

  /** The listed devices of `mem` have the contents they have in `orig`. */
  ghost predicate SameThrough(mem: Packets, orig: Packets, ids: seq<nat>, n: nat, w: nat) {
    && w >= 1 && |mem| == |orig| == Base(n, w) && (forall i :: 0 <= i < |ids| ==> ids[i] < n)
    && Through(mem, ids, n, w) == Through(orig, ids, n, w)
  }

  /** Row `i` of `dec`, applied to the survivors in `mem`, gives packet `i` of the lost devices. */
  ghost predicate PacketBack(dec: seq<BitRow>, front: seq<nat>, tail: seq<nat>, n: nat, K: nat, w: nat, orig: Packets, mem: Packets, i: nat) {
    && w >= 1 && |mem| == |orig| == Base(n, w)
    && (forall j :: 0 <= j < |front| ==> front[j] < n) && (forall j :: 0 <= j < |tail| ==> tail[j] < n)
    && i < |dec| && |dec[i]| == K == Base(|front|, w) && i < Base(|tail|, w)
    && CodingPacket(dec, Through(mem, front, n, w) + Through(mem, tail, n, w), K, i) == Through(orig, tail, n, w)[i]
  }

  /** One lost packet comes back. */
  lemma TailPacket(dec: seq<BitRow>, B: seq<BitRow>, k: nat, m: nat, w: nat, front: seq<nat>, tail: seq<nat>,
      orig: Packets, mem: Packets, x: nat, y: nat)
    requires Rebuildable(dec, B, k, m, w, front, tail) && BitCodeword(B, k, m, w, orig) && SameThrough(mem, orig, front, k + m, w)
    requires x < |tail| && y < w
    ensures PacketBack(dec, front, tail, k + m, Base(k, w), w, orig, mem, Base(x, w) + y)
  {
    hide Base, Select, Through, SurvivorBits, DeviceBits;
    var K, i := Base(k, w), Base(x, w) + y;
    BaseBefore(x, |tail|, w);
    var S, D, L := SurvivorBits(B, k, m, w, front), orig[..K], Through(mem, front, k + m, w) + Through(mem, tail, k + m, w);
    var p := DeviceBits(B, k, m, w, tail[x], y);
    assert RebuildsBlock(dec, B, k, m, w, S, tail, x, y);
    assert NonzeroBits(B, k, m, w, tail[x]);
    RebuilderNonzero(dec[i], S, p, K);
    SurvivorPackets(B, k, m, w, orig, front);
    SelectSame(dec[i], dec[i], L, BitApply(S, D), K);
    CodewordPacket(B, k, m, w, orig, tail[x], y);
    ThroughAt(orig, tail, k + m, w, x, y);
  }

  lemma TailPackets(dec: seq<BitRow>, B: seq<BitRow>, k: nat, m: nat, w: nat, front: seq<nat>, tail: seq<nat>,
      orig: Packets, mem: Packets)
    requires Rebuildable(dec, B, k, m, w, front, tail) && BitCodeword(B, k, m, w, orig) && SameThrough(mem, orig, front, k + m, w)
    ensures BitMatrix(dec, Base(|tail|, w), Base(k, w))
    ensures var L := Through(mem, front, k + m, w) + Through(mem, tail, k + m, w);
      Encoded(dec, L, Base(k, w)) == Through(orig, front, k + m, w) + Through(orig, tail, k + m, w)
  {
    hide Base, NonzeroBits, CodingPacket, RebuildsBlock, Through;
    var K, L, T := Base(k, w), Through(mem, front, k + m, w) + Through(mem, tail, k + m, w), Through(orig, tail, k + m, w);
    forall i: nat | i < Base(|tail|, w) ensures CodingPacket(dec, L, K, i) == T[i] {
      PacketIndex(tail, k + m, w, i);
      TailPacket(dec, B, k, m, w, front, tail, orig, mem, i / w, i % w);
      assert Slot(i / w, i % w, w) == i;
    }
  }

  /** `ops` bring the listed devices to their contents in `orig`. */
  ghost predicate Restored(ops: seq<Op>, mem: Packets, orig: Packets, ids: seq<nat>, n: nat, w: nat) {
    && w >= 1 && |mem| == |orig| == Base(n, w) && (forall i :: 0 <= i < |ids| ==> ids[i] < n)
    && Run(Through(mem, ids, n, w), ops, w) == Through(orig, ids, n, w)
  }

  /** Running the schedule of `dec` restores every lost device. */
  lemma ScheduleRestores(ops: seq<Op>, dec: seq<BitRow>, B: seq<BitRow>, k: nat, m: nat, w: nat, front: seq<nat>, tail: seq<nat>,
      orig: Packets, mem: Packets)
    requires Rebuildable(dec, B, k, m, w, front, tail) && BitCodeword(B, k, m, w, orig) && SameThrough(mem, orig, front, k + m, w)
    requires Implements(ops, dec, k, |tail|, w)
    ensures Restored(ops, mem, orig, front + tail, k + m, w)
  {
    hide Base, Through, NonzeroBits, RebuildsAll, Encoded, Run;
    FrontAndTail(mem, front, tail, k + m, w);
    FrontAndTail(orig, front, tail, k + m, w);
    TailPackets(dec, B, k, m, w, front, tail, orig, mem);
    var L := Through(mem, front + tail, k + m, w);
    assert Run(L, ops, w) == Encoded(dec, L, Base(k, w));
  }
}
