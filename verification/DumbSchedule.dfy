/** `jerasure_dumb_bitmatrix_to_schedule`: every row from scratch, in order. */
module DumbSchedule {
  import opened RowMajor
  import opened BitAlgebra
  import opened Schedule

  /** Rows below `i` are done. */
  function Prefix(i: nat, n: nat): (done: seq<bool>)
    ensures |done| == n && forall r :: 0 <= r < n ==> done[r] == (r < i)
  {
    seq(n, r => r < i)
  }

  lemma PrefixStep(i: nat, n: nat)
    requires i < n
    ensures Prefix(i, n)[i := true] == Prefix(i + 1, n) && !Prefix(i, n)[i]
  {
  }

  /** The state before row `i`. */
  ghost predicate Upto(ops: seq<Op>, B: seq<BitRow>, k: nat, m: nat, w: nat, i: nat) {
    && Scheduled(ops, B, k, m, w, Prefix(i, |B|))
    && |ops| + Remaining(B, Prefix(i, |B|), |B|) == TotalWeight(B)
  }

  lemma DumbStart(B: seq<BitRow>, k: nat, m: nat, w: nat)
    requires BitMatrix(B, Base(m, w), Base(k, w))
    ensures Upto([], B, k, m, w, 0)
  {
    NothingScheduled(B, k, m, w, Prefix(0, |B|));
    assert Prefix(0, |B|) == seq(|B|, _ => false);
  }

  lemma DumbStep(ops: seq<Op>, B: seq<BitRow>, k: nat, m: nat, w: nat, i: nat)
    requires w >= 1 && Upto(ops, B, k, m, w, i) && i < |B|
    ensures Upto(ops + PlainOps(B[i], k, w, i, |B[i]|), B, k, m, w, i + 1)
  {
    PrefixStep(i, |B|);
    RemainingStep(B, Prefix(i, |B|), i, |B|);
    PlainLength(B[i], k, w, i, |B[i]|);
    hide Scheduled;
    EmitPlain(ops, B, k, m, w, Prefix(i, |B|), i);
  }

  lemma DumbEnd(ops: seq<Op>, B: seq<BitRow>, k: nat, m: nat, w: nat)
    requires Upto(ops, B, k, m, w, |B|)
    ensures Implements(ops, B, k, m, w) && |ops| == TotalWeight(B)
  {
    AllScheduled(ops, B, k, m, w, Prefix(|B|, |B|));
    RemainingNone(B, Prefix(|B|, |B|), |B|);
  }

  method DumbBitmatrixToSchedule(k: nat, m: nat, w: nat, B: array<bool>) returns (ops: seq<Op>)
    requires w >= 1 && B.Length == Base(Base(m, w), Base(k, w))
    ensures Implements(ops, Rows(B[..], Base(m, w), Base(k, w)), k, m, w)
    ensures |ops| == TotalWeight(Rows(B[..], Base(m, w), Base(k, w))) <= B.Length
  {
    hide Base, Upto, Rows, Implements, TotalWeight, PacketOp;
    var M, K := Base(m, w), Base(k, w);
    ghost var R: seq<BitRow> := Rows(B[..], M, K);
    ops := [];
    DumbStart(R, k, m, w);
    var index: nat := 0;
    BaseStep(0, K);
    var i: nat := 0;
    while i < M
      invariant i <= M && index == Base(i, K) && Upto(ops, R, k, m, w, i)
    {
      BaseBefore(i, M, K);
      BaseStep(i, K);
      ghost var before := ops;
      var optodo := false;
      var j: nat := 0;
      while j < K
        invariant j <= K && index == Base(i, K) + j
        invariant ops == before + PlainOps(R[i], k, w, i, j) && optodo == (PlainOps(R[i], k, w, i, j) != [])
      {
        assert B[index] == R[i][j];
        if B[index] {
          ops := ops + [PacketOp(k, w, j, i, optodo)];
          optodo := true;
        }
        index := index + 1;
        j := j + 1;
      }
      DumbStep(before, R, k, m, w, i);
      i := i + 1;
    }
    DumbEnd(ops, R, k, m, w);
    IsMatrix(B[..], M, K);
    TotalBound(R, K);
  }
}
