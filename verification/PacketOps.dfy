/** Running schedules and bit-matrix products on the packets of the devices, in place: one coding
    stripe of `w` packets per device, all devices in one array. */
module PacketOps {
  import opened Bits
  import opened RowMajor
  import opened BitAlgebra
  import opened Schedule
  import opened Devices

  /** `ptrs` names distinct devices. */
  predicate Pointers(ptrs: seq<nat>, n: nat) {
    && (forall i :: 0 <= i < |ptrs| ==> ptrs[i] < n)
    && (forall i, j :: 0 <= i < j < |ptrs| ==> ptrs[i] != ptrs[j])
  }

  lemma PacketIndex(ptrs: seq<nat>, n: nat, w: nat, p: nat)
    requires w >= 1 && p < Base(|ptrs|, w) && forall i :: 0 <= i < |ptrs| ==> ptrs[i] < n
    ensures p / w < |ptrs| && p % w < w && Base(ptrs[p / w], w) + p % w < Base(n, w)
    ensures Slot(p / w, p % w, w) == p
  {
    Slots(p, |ptrs|, w);
    BaseBefore(ptrs[p / w], n, w);
  }

  /** The packets seen through the device pointers. */
  function Through(mem: Packets, ptrs: seq<nat>, n: nat, w: nat): (L: Packets)
    requires w >= 1 && |mem| == Base(n, w) && forall i :: 0 <= i < |ptrs| ==> ptrs[i] < n
    ensures |L| == Base(|ptrs|, w)
  {
    seq(Base(|ptrs|, w), p requires 0 <= p < Base(|ptrs|, w) => (PacketIndex(ptrs, n, w, p); mem[Base(ptrs[p / w], w) + p % w]))
  }

  lemma ThroughAt(mem: Packets, ptrs: seq<nat>, n: nat, w: nat, i: nat, x: nat)
    requires w >= 1 && |mem| == Base(n, w) && (forall i :: 0 <= i < |ptrs| ==> ptrs[i] < n) && i < |ptrs| && x < w
    ensures Base(i, w) + x < Base(|ptrs|, w) && Base(ptrs[i], w) + x < Base(n, w)
    ensures Through(mem, ptrs, n, w)[Base(i, w) + x] == mem[Base(ptrs[i], w) + x]
  {
    BaseBefore(i, |ptrs|, w);
    BaseBefore(ptrs[i], n, w);
    ModUnique(Base(i, w) + x, w, i, x);
  }

  /** Writing a packet through a pointer. */
  lemma ThroughWrite(mem: Packets, ptrs: seq<nat>, n: nat, w: nat, i: nat, x: nat, v: nat)
    requires w >= 1 && |mem| == Base(n, w) && Pointers(ptrs, n) && i < |ptrs| && x < w
    ensures Base(i, w) + x < Base(|ptrs|, w) && Base(ptrs[i], w) + x < Base(n, w)
    ensures Through(mem[Base(ptrs[i], w) + x := v], ptrs, n, w) == Through(mem, ptrs, n, w)[Base(i, w) + x := v]
  {
    ThroughAt(mem, ptrs, n, w, i, x);
    var a, at := Base(ptrs[i], w) + x, Base(i, w) + x;
    var mem', L := mem[a := v], Through(mem, ptrs, n, w);
    forall p: nat | p < Base(|ptrs|, w) ensures Through(mem', ptrs, n, w)[p] == L[at := v][p] {
      PacketIndex(ptrs, n, w, p);
      var q, y := p / w, p % w;
      if q == i {
        assert p == Base(i, w) + y;
      } else {
        RowsApart(ptrs[q], ptrs[i], n, w);
        RowsApart(q, i, |ptrs|, w);
      }
    }
  }

  /** Nothing but the packets of the listed devices differs. */
  ghost predicate SameElsewhere(a: Packets, b: Packets, ptrs: seq<nat>, n: nat, w: nat) {
    && |a| == |b| == Base(n, w)
    && forall d: nat, x: nat :: d < n && d !in ptrs && x < w ==> SamePacket(a, b, n, w, d, x)
  }

  ghost predicate SamePacket(a: Packets, b: Packets, n: nat, w: nat, d: nat, x: nat)
    requires |a| == |b| == Base(n, w) && d < n && x < w
  {
    BaseBefore(d, n, w);
    a[Base(d, w) + x] == b[Base(d, w) + x]
  }

  lemma WriteElsewhere(a: Packets, b: Packets, ptrs: seq<nat>, n: nat, w: nat, i: nat, x: nat, v: nat)
    requires SameElsewhere(a, b, ptrs, n, w) && i < |ptrs| && x < w && ptrs[i] < n
    ensures Base(ptrs[i], w) + x < |b| && SameElsewhere(a, b[Base(ptrs[i], w) + x := v], ptrs, n, w)
  {
    BaseBefore(ptrs[i], n, w);
    var b' := b[Base(ptrs[i], w) + x := v];
    forall d: nat, y: nat | d < n && d !in ptrs && y < w ensures SamePacket(a, b', n, w, d, y) {
      assert SamePacket(a, b, n, w, d, y);
      RowsApart(d, ptrs[i], n, w);
    }
  }

  /** `jerasure_do_scheduled_operations`. */
  method DoScheduledOperations(mem: array<nat>, ptr: array<nat>, ghost used: nat, ghost n: nat, w: nat, ops: seq<Op>)
    requires w >= 1 && mem != ptr && mem.Length == Base(n, w) && used <= ptr.Length && Pointers(ptr[..used], n) && AllFit(ops, used, w)
    modifies mem
    ensures Through(mem[..], ptr[..used], n, w) == Run(old(Through(mem[..], ptr[..used], n, w)), ops, w)
    ensures SameElsewhere(old(mem[..]), mem[..], ptr[..used], n, w)
  {
    hide Base, Through, Xor, SameElsewhere;
    ghost var ptrs := ptr[..used];
    ghost var L0, m0 := Through(mem[..], ptrs, n, w), mem[..];
    SameAtStart(m0, ptrs, n, w);
    var i: nat := 0;
    while i < |ops|
      invariant i <= |ops| && Through(mem[..], ptrs, n, w) == Run(L0, ops[..i], w)
      invariant SameElsewhere(m0, mem[..], ptrs, n, w)
    {
      var op := ops[i];
      ghost var L, was := Through(mem[..], ptrs, n, w), mem[..];
      assert Fits(op, |ptrs|, w);
      ThroughAt(was, ptrs, n, w, op.srcDev, op.srcPkt);
      ThroughAt(was, ptrs, n, w, op.dstDev, op.dstPkt);
      var s, d := Base(ptr[op.srcDev], w) + op.srcPkt, Base(ptr[op.dstDev], w) + op.dstPkt;
      ghost var v := if op.xor then Xor(mem[s], mem[d]) else mem[s];
      ThroughWrite(was, ptrs, n, w, op.dstDev, op.dstPkt, v);
      WriteElsewhere(m0, was, ptrs, n, w, op.dstDev, op.dstPkt, v);
      if op.xor {
        mem[d] := Xor(mem[s], mem[d]);
      } else {
        mem[d] := mem[s];
      }
      assert mem[..] == was[d := v];
      assert ops[..i + 1] == ops[..i] + [op];
      RunAppend(L0, ops[..i], op, w);
      i := i + 1;
    }
    assert ops[..i] == ops;
  }

  lemma SameAtStart(m: Packets, ptrs: seq<nat>, n: nat, w: nat)
    requires |m| == Base(n, w)
    ensures SameElsewhere(m, m, ptrs, n, w)
  {
  }

  /** All devices in order. */
  lemma ThroughAll(mem: Packets, k: nat, n: nat, w: nat)
    requires w >= 1 && k <= n && |mem| == Base(n, w)
    ensures Base(k, w) <= Base(n, w) && Pointers(DataIds(k), n)
    ensures Through(mem, DataIds(k), n, w) == mem[..Base(k, w)]
  {
    if k < n { BaseBefore(k, n, w); }
    forall p: nat | p < Base(k, w) ensures Through(mem, DataIds(k), n, w)[p] == mem[p] {
      PacketIndex(DataIds(k), n, w, p);
    }
  }

  lemma BaseSum(k: nat, m: nat, w: nat)
    ensures Base(k + m, w) == Base(k, w) + Base(m, w)
  {
    assert (k + m) * w == k * w + m * w;
  }

  /** One stripe of `jerasure_schedule_encode`. */
  method EncodeStripe(mem: array<nat>, k: nat, m: nat, w: nat, ops: seq<Op>, ghost B: seq<BitRow>)
    requires w >= 1 && mem.Length == Base(k + m, w) && Implements(ops, B, k, m, w)
    modifies mem
    ensures Base(k + m, w) == Base(k, w) + Base(m, w)
    ensures mem[..] == Encoded(B, old(mem[..]), Base(k, w))
  {
    hide Base, Through, Run, Encoded, SameElsewhere, Pointers;
    BaseSum(k, m, w);
    assert AllFit(ops, k + m, w) && Run(mem[..], ops, w) == Encoded(B, mem[..], Base(k, w));
    var ptrs := new nat[k + m];
    var i: nat := 0;
    while i < k + m
      invariant i <= k + m && (forall d: nat :: d < i ==> ptrs[d] == d) && mem[..] == old(mem[..])
    {
      ptrs[i] := i;
      i := i + 1;
    }
    assert ptrs[..k + m] == DataIds(k + m);
    ghost var m0 := mem[..];
    ThroughAll(m0, k + m, k + m, w);
    assert m0[..Base(k + m, w)] == m0;
    DoScheduledOperations(mem, ptrs, k + m, k + m, w, ops);
    ThroughAll(mem[..], k + m, k + m, w);
    assert mem[..][..Base(k + m, w)] == mem[..];
  }

  // ----- products with the rows of a bit matrix

  /** Packet `j` of the product of block row `i` with the source packets. */
  ghost function ProductPacket(B: seq<BitRow>, r: nat, src: Packets, was: nat): nat
    requires r < |B| && |B[r]| == |src|
  {
    if Weight(B[r], |src|) == 0 then was else Select(B[r], src, |src|)
  }

  /** One packet of the destination: copy the first selected source packet, xor the others. */
  method DotPacket(k: nat, w: nat, B: array<bool>, m: nat, r: nat, ids: seq<nat>, dest: nat, j: nat, n: nat, mem: array<nat>)
    requires w >= 1 && B.Length == Base(m, Base(k, w)) && r < m
    requires |ids| == k && mem.Length == Base(n, w) && (forall i :: 0 <= i < k ==> ids[i] < n)
    requires dest < n && dest !in ids && j < w
    modifies mem
    ensures |Rows(B[..], m, Base(k, w))[r]| == Base(k, w) && Base(dest, w) + j < mem.Length
    ensures var at := Base(dest, w) + j;
      mem[..] == old(mem[..])[at := ProductPacket(Rows(B[..], m, Base(k, w)), r, old(Through(mem[..], ids, n, w)), old(mem[at]))]
  {
    hide Base, Through, Xor, Rows, Select;
    var K := Base(k, w);
    ghost var R: seq<BitRow>, src, m0 := Rows(B[..], m, K), Through(mem[..], ids, n, w), mem[..];
    var index: nat := Base(r, K);
    BaseBefore(r, m, K);
    BaseStep(0, w);
    BaseBefore(dest, n, w);
    var pptr := Base(dest, w) + j;
    ghost var row := R[r];
    var pstarted := false;
    var x: nat := 0;
    while x < k
      invariant x <= k && index == Base(r, K) + Base(x, w) && Base(x, w) <= K
      invariant pstarted == (Weight(row, Base(x, w)) != 0)
      invariant mem[..] == m0[pptr := if pstarted then Select(row, src, Base(x, w)) else m0[pptr]]
    {
      BaseBefore(x, k, w);
      BaseStep(x, w);
      var y: nat := 0;
      while y < w
        invariant y <= w && index == Base(r, K) + Base(x, w) + y
        invariant pstarted == (Weight(row, Base(x, w) + y) != 0)
        invariant mem[..] == m0[pptr := if pstarted then Select(row, src, Base(x, w) + y) else m0[pptr]]
      {
        ghost var c := Base(x, w) + y;
        assert B[index] == row[c];
        SelectStep(row, src, c + 1);
        BaseBefore(ids[x], n, w);
        ThroughAt(m0, ids, n, w, x, y);
        var s := Base(ids[x], w) + y;
        RowsApart(ids[x], dest, n, w);
        assert mem[s] == m0[s] by { assert mem[..][s] == m0[s]; }
        if B[index] {
          if !pstarted {
            mem[pptr] := mem[s];
            WeightNone(row, src, c);
            XorUnit(src[c]);
            pstarted := true;
          } else {
            mem[pptr] := Xor(mem[pptr], mem[s]);
          }
        }
        index := index + 1;
        y := y + 1;
      }
      x := x + 1;
    }
  }

  /** `mem` after the first `j` packets of device `dest` have been computed. */
  ghost predicate Dotted(mem: Packets, m0: Packets, B: seq<BitRow>, r0: nat, src: Packets, at: nat, j: nat) {
    && |mem| == |m0| && r0 + j <= |B| && at + j <= |mem| && (forall r :: 0 <= r < |B| ==> |B[r]| == |src|)
    && (forall s :: 0 <= s < |mem| && !(at <= s < at + j) ==> mem[s] == m0[s])
    && (forall s :: at <= s < at + j ==> mem[s] == ProductPacket(B, r0 + (s - at), src, m0[s]))
  }

  lemma DottedStep(mem: Packets, m0: Packets, B: seq<BitRow>, r0: nat, src: Packets, at: nat, j: nat)
    requires Dotted(mem, m0, B, r0, src, at, j) && r0 + j < |B| && at + j < |mem|
    ensures Dotted(mem[at + j := ProductPacket(B, r0 + j, src, mem[at + j])], m0, B, r0, src, at, j + 1)
  {
    hide ProductPacket;
  }

  /** One stripe of `jerasure_bitmatrix_dotprod`, for block row `i` of the bit matrix. */
  method DotStripe(k: nat, w: nat, B: array<bool>, m: nat, i: nat, ids: seq<nat>, dest: nat, n: nat, mem: array<nat>)
    requires w >= 1 && i < m && B.Length == Base(Base(m, w), Base(k, w))
    requires |ids| == k && mem.Length == Base(n, w) && dest < n && dest !in ids && forall i :: 0 <= i < k ==> ids[i] < n
    modifies mem
    ensures Dotted(mem[..], old(mem[..]), Rows(B[..], Base(m, w), Base(k, w)), Base(i, w),
                   old(Through(mem[..], ids, n, w)), Base(dest, w), w)
  {
    hide Base, Through, Rows, ProductPacket, Dotted;
    var K, M := Base(k, w), Base(m, w);
    ghost var R: seq<BitRow>, src, m0 := Rows(B[..], M, K), Through(mem[..], ids, n, w), mem[..];
    BaseBefore(i, m, w);
    BaseBefore(dest, n, w);
    DottedStart(m0, R, K, Base(i, w), src, Base(dest, w));
    var j: nat := 0;
    while j < w
      invariant j <= w && Dotted(mem[..], m0, R, Base(i, w), src, Base(dest, w), j)
    {
      DottedSource(mem[..], m0, R, Base(i, w), src, ids, dest, n, w, j);
      DottedStep(mem[..], m0, R, Base(i, w), src, Base(dest, w), j);
      DotPacket(k, w, B, M, Base(i, w) + j, ids, dest, j, n, mem);
      j := j + 1;
    }
  }

  lemma DottedStart(m0: Packets, B: seq<BitRow>, K: nat, r0: nat, src: Packets, at: nat)
    requires r0 <= |B| && at <= |m0| && |src| == K && forall r :: 0 <= r < |B| ==> |B[r]| == K
    ensures Dotted(m0, m0, B, r0, src, at, 0)
  {
  }

  lemma DottedSource(mem: Packets, m0: Packets, B: seq<BitRow>, r0: nat, src: Packets, ids: seq<nat>, dest: nat, n: nat, w: nat, j: nat)
    requires w >= 1 && |m0| == Base(n, w) && Dotted(mem, m0, B, r0, src, Base(dest, w), j) && j <= w
    requires dest < n && dest !in ids && forall i :: 0 <= i < |ids| ==> ids[i] < n
    ensures Through(mem, ids, n, w) == Through(m0, ids, n, w)
  {
    forall p: nat | p < Base(|ids|, w) ensures Through(mem, ids, n, w)[p] == Through(m0, ids, n, w)[p] {
      PacketIndex(ids, n, w, p);
      RowsApart(ids[p / w], dest, n, w);
    }
  }

  ghost predicate Computed(mem: Packets, m0: Packets, B: seq<BitRow>, K: nat, r: nat) {
    && BitMatrix(B, |B|, K) && |mem| == |m0| == K + |B| && r <= |B|
    && (forall s :: 0 <= s < |mem| && !(K <= s < K + r) ==> mem[s] == m0[s])
    && (forall i: nat :: i < r ==> mem[K + i] == CodingPacket(B, m0, K, i))
  }

  lemma ComputedStep(mem: Packets, m1: Packets, m0: Packets, B: seq<BitRow>, K: nat, r: nat, w: nat)
    requires Computed(m1, m0, B, K, r) && K <= |m1| && Dotted(mem, m1, B, r, m1[..K], K + r, w)
    ensures Computed(mem, m0, B, K, r + w)
  {
    forall i: nat | i < r + w ensures mem[K + i] == CodingPacket(B, m0, K, i) {
      if i >= r {
        var s := K + i;
        assert mem[s] == ProductPacket(B, r + (s - (K + r)), m1[..K], m1[s]);
        SelectSame(B[i], B[i], m1[..K], m0, K);
      }
    }
  }

  lemma AllComputed(mem: Packets, m0: Packets, B: seq<BitRow>, K: nat)
    requires Computed(mem, m0, B, K, |B|)
    ensures mem == Encoded(B, m0, K)
  {
    var E := Encoded(B, m0, K);
    forall s | 0 <= s < |mem| ensures mem[s] == E[s] {
      if s >= K { assert s == K + (s - K); }
    }
  }
}
