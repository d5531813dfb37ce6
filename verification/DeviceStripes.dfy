/** The outer loops over the size of the devices: stripe after stripe of w packets per device. */
module DeviceStripes {
  import opened RowMajor
  import opened BitAlgebra
  import opened Schedule
  import opened PacketOps
  import opened Devices

  /** Different arrays, each with one stripe of all devices. */
  ghost predicate Stripes(stripes: seq<array<nat>>, size: nat) {
    && (forall t :: 0 <= t < |stripes| ==> stripes[t].Length == size)
    && forall t, u :: 0 <= t < u < |stripes| ==> stripes[t] != stripes[u]
  }

  /** The contents of all stripes. */
  ghost function Memory(stripes: seq<array<nat>>): (mem: seq<Packets>)
    reads stripes
    ensures |mem| == |stripes| && forall t :: 0 <= t < |stripes| ==> mem[t] == stripes[t][..]
  {
    seq(|stripes|, t requires 0 <= t < |stripes| reads stripes => stripes[t][..])
  }

  /** `jerasure_do_scheduled_operations` on every stripe, as the callers' loops run it. */
  method DoOnStripes(stripes: seq<array<nat>>, ptr: array<nat>, ghost used: nat, ghost n: nat, w: nat, ops: seq<Op>)
    requires w >= 1 && Stripes(stripes, Base(n, w)) && ptr !in stripes && used <= ptr.Length
    requires Pointers(ptr[..used], n) && AllFit(ops, used, w)
    modifies stripes
    ensures ptr[..] == old(ptr[..]) && forall t :: 0 <= t < |stripes| ==> StripeRun(stripes[t][..], old(stripes[t][..]), ptr[..used], n, w, ops)
  {
    hide Base, Through, Run, SameElsewhere, Pointers, AllFit;
    var t: nat := 0;
    while t < |stripes|
      invariant t <= |stripes| && ptr[..] == old(ptr[..])
      invariant forall u :: 0 <= u < t ==> StripeRun(stripes[u][..], old(stripes[u][..]), ptr[..used], n, w, ops)
      invariant forall u :: t <= u < |stripes| ==> stripes[u][..] == old(stripes[u][..])
    {
      DoScheduledOperations(stripes[t], ptr, used, n, w, ops);
      t := t + 1;
    }
  }

  /** What the operations have made of one stripe. */
  ghost predicate StripeRun(mem: Packets, was: Packets, ptrs: seq<nat>, n: nat, w: nat, ops: seq<Op>) {
    && w >= 1 && |mem| == |was| == Base(n, w) && Pointers(ptrs, n)
    && Through(mem, ptrs, n, w) == Run(Through(was, ptrs, n, w), ops, w) && SameElsewhere(was, mem, ptrs, n, w)
  }

  /** `jerasure_schedule_encode`: every stripe is encoded. */
  method ScheduleEncode(stripes: seq<array<nat>>, k: nat, m: nat, w: nat, ops: seq<Op>, ghost B: seq<BitRow>)
    requires w >= 1 && Stripes(stripes, Base(k + m, w)) && Implements(ops, B, k, m, w)
    modifies stripes
    ensures Base(k + m, w) == Base(k, w) + Base(m, w)
    ensures forall t :: 0 <= t < |stripes| ==> stripes[t][..] == Encoded(B, old(stripes[t][..]), Base(k, w))
  {
    hide Base, Run, Encoded, Implements;
    BaseSum(k, m, w);
    assert BitMatrix(B, Base(m, w), Base(k, w)) by { ImplementsMatrix(ops, B, k, m, w); }
    var t: nat := 0;
    while t < |stripes|
      invariant t <= |stripes|
      invariant forall u :: 0 <= u < t ==> stripes[u][..] == Encoded(B, old(stripes[u][..]), Base(k, w))
      invariant forall u :: t <= u < |stripes| ==> stripes[u][..] == old(stripes[u][..])
    {
      EncodeStripe(stripes[t], k, m, w, ops, B);
      t := t + 1;
    }
  }

  lemma ImplementsMatrix(ops: seq<Op>, B: seq<BitRow>, k: nat, m: nat, w: nat)
    requires Implements(ops, B, k, m, w)
    ensures BitMatrix(B, Base(m, w), Base(k, w))
  {
  }

  /** `jerasure_bitmatrix_dotprod`: in every stripe, each packet of the destination becomes the sum that
      its bit row selects. */
  method BitmatrixDotprod(k: nat, w: nat, B: array<bool>, m: nat, i: nat, ids: seq<nat>, dest: nat, n: nat, stripes: seq<array<nat>>)
    requires w >= 1 && i < m && B.Length == Base(Base(m, w), Base(k, w)) && Stripes(stripes, Base(n, w))
    requires |ids| == k && dest < n && dest !in ids && forall i :: 0 <= i < k ==> ids[i] < n
    modifies stripes
    ensures forall t :: 0 <= t < |stripes| ==> DottedStripe(stripes[t][..], old(stripes[t][..]), Rows(B[..], Base(m, w), Base(k, w)), i, ids, dest, n, w)
  {
    hide Base, Through, Rows, Dotted;
    ghost var R: seq<BitRow> := Rows(B[..], Base(m, w), Base(k, w));
    var t: nat := 0;
    while t < |stripes|
      invariant t <= |stripes|
      invariant forall u :: 0 <= u < t ==> DottedStripe(stripes[u][..], old(stripes[u][..]), R, i, ids, dest, n, w)
      invariant forall u :: t <= u < |stripes| ==> stripes[u][..] == old(stripes[u][..])
    {
      DotStripe(k, w, B, m, i, ids, dest, n, stripes[t]);
      t := t + 1;
    }
  }

  ghost predicate DottedStripe(mem: Packets, was: Packets, B: seq<BitRow>, i: nat, ids: seq<nat>, dest: nat, n: nat, w: nat) {
    && w >= 1 && |was| == Base(n, w) && (forall i :: 0 <= i < |ids| ==> ids[i] < n)
    && Dotted(mem, was, B, Base(i, w), Through(was, ids, n, w), Base(dest, w), w)
  }

  /** `jerasure_bitmatrix_encode`: every stripe is encoded, row after row. */
  method BitmatrixEncode(k: nat, m: nat, w: nat, B: array<bool>, stripes: seq<array<nat>>)
    requires w >= 1 && B.Length == Base(Base(m, w), Base(k, w)) && Stripes(stripes, Base(k + m, w))
    modifies stripes
    ensures Base(k + m, w) == Base(k, w) + Base(m, w)
    ensures BitMatrix(Rows(B[..], Base(m, w), Base(k, w)), Base(m, w), Base(k, w))
    ensures forall t :: 0 <= t < |stripes| ==> stripes[t][..] == Encoded(Rows(B[..], Base(m, w), Base(k, w)), old(stripes[t][..]), Base(k, w))
  {
    hide Base, Through, Rows, DottedStripe, Computed, Encoded;
    BaseSum(k, m, w);
    ghost var K, M := Base(k, w), Base(m, w);
    ghost var R: seq<BitRow> := Rows(B[..], M, K);
    IsMatrix(B[..], M, K);
    BaseStep(0, w);
    NothingComputed(stripes, R, K);
    var i: nat := 0;
    while i < m
      invariant i <= m && Base(i, w) <= M
      invariant forall t :: 0 <= t < |stripes| ==> Computed(stripes[t][..], old(stripes[t][..]), R, K, Base(i, w))
    {
      BaseBefore(i, m, w);
      BaseStep(i, w);
      ghost var was := Memory(stripes);
      BitmatrixDotprod(k, w, B, m, i, DataIds(k), k + i, k + m, stripes);
      forall t | 0 <= t < |stripes| ensures Computed(stripes[t][..], old(stripes[t][..]), R, K, Base(i + 1, w)) {
        RowComputed(stripes[t][..], was[t], old(stripes[t][..]), R, k, m, w, i);
      }
      i := i + 1;
    }
    forall t | 0 <= t < |stripes| ensures stripes[t][..] == Encoded(R, old(stripes[t][..]), K) {
      AllComputed(stripes[t][..], old(stripes[t][..]), R, K);
    }
  }

  lemma NothingComputed(stripes: seq<array<nat>>, B: seq<BitRow>, K: nat)
    requires BitMatrix(B, |B|, K) && forall t :: 0 <= t < |stripes| ==> stripes[t].Length == K + |B|
    ensures forall t :: 0 <= t < |stripes| ==> Computed(stripes[t][..], stripes[t][..], B, K, 0)
  {
  }

  lemma RowComputed(mem: Packets, m1: Packets, m0: Packets, B: seq<BitRow>, k: nat, m: nat, w: nat, i: nat)
    requires Computed(m1, m0, B, Base(k, w), Base(i, w)) && i < m && |B| == Base(m, w)
    requires DottedStripe(mem, m1, B, i, DataIds(k), k + i, k + m, w)
    ensures Computed(mem, m0, B, Base(k, w), Base(i + 1, w))
  {
    hide Base, Through, Dotted, Computed;
    BaseStep(i, w);
    BaseSum(k, i, w);
    BaseSum(k, m, w);
    ThroughAll(m1, k, k + m, w);
    ComputedStep(mem, m1, m0, B, Base(k, w), Base(i, w), w);
  }
}
