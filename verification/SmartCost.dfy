/** What the smart scheduler spends on each row, counted in the finished schedule. */
module SmartCost {
  import opened RowMajor
  import opened BitAlgebra
  import opened Schedule
  import opened SmartPlan
  import opened SmartSchedule

  /** The operation writes coding packet `i`. */
  predicate Writes(op: Op, k: nat, w: nat, i: nat)
    requires w >= 1
  {
    op.dstDev == k + i / w && op.dstPkt == i % w
  }

  /** The number of operations that write coding packet `i`. */
  function Into(ops: seq<Op>, k: nat, w: nat, i: nat): nat
    requires w >= 1
    decreases |ops|
  {
    if ops == [] then 0
    else
      var n := |ops| - 1;
      Into(ops[..n], k, w, i) + if Writes(ops[n], k, w, i) then 1 else 0
  }

  lemma {:induction false} IntoConcat(a: seq<Op>, b: seq<Op>, k: nat, w: nat, i: nat)
    requires w >= 1
    ensures Into(a + b, k, w, i) == Into(a, k, w, i) + Into(b, k, w, i)
    decreases |b|
  {
    if b == [] {
      assert a + b == a;
    } else {
      var n := |b| - 1;
      IntoConcat(a, b[..n], k, w, i);
      assert (a + b)[..|a + b| - 1] == a + b[..n];
    }
  }

  ghost predicate AllWrite(ops: seq<Op>, k: nat, w: nat, i: nat)
    requires w >= 1
  {
    forall p :: 0 <= p < |ops| ==> Writes(ops[p], k, w, i)
  }

  lemma {:induction false} IntoOwn(ops: seq<Op>, k: nat, w: nat, row: nat, i: nat)
    requires w >= 1 && AllWrite(ops, k, w, row)
    ensures Into(ops, k, w, i) == if i == row then |ops| else 0
    decreases |ops|
  {
    if ops != [] {
      var n := |ops| - 1;
      IntoOwn(ops[..n], k, w, row, i);
      assert Writes(ops[n], k, w, row);
      assert i == i / w * w + i % w && row == row / w * w + row % w;
    }
  }

  lemma {:induction false} PiecesWrite(row: BitRow, k: nat, w: nat, i: nat, n: nat)
    requires w >= 1 && n <= |row|
    ensures AllWrite(PlainOps(row, k, w, i, n), k, w, i) && AllWrite(PatchOps(row, k, w, i, n), k, w, i)
    ensures |PlainOps(row, k, w, i, n)| == |PatchOps(row, k, w, i, n)| == Weight(row, n)
  {
    if n > 0 { PiecesWrite(row, k, w, i, n - 1); }
  }

  lemma RowOpsWrite(B: seq<BitRow>, k: nat, w: nat, row: nat, start: int)
    requires w >= 1 && BitMatrix(B, |B|, Base(k, w)) && row < |B| && -1 <= start < |B|
    ensures AllWrite(RowOps(B, k, w, row, start), k, w, row)
    ensures |RowOps(B, k, w, row, start)| == Way(B, Base(k, w), row, start)
  {
    hide Base;
    PiecesWrite(B[row], k, w, row, |B[row]|);
    if start != -1 { PiecesWrite(RowXor(B[row], B[start]), k, w, row, |B[row]|); }
  }

  lemma {:induction false} SegmentsWrite(B: seq<BitRow>, k: nat, w: nat, order: seq<nat>, starts: seq<int>, i: nat)
    requires w >= 1 && BitMatrix(B, |B|, Base(k, w)) && |order| == |starts|
    requires forall t :: 0 <= t < |order| ==> order[t] < |B| && -1 <= starts[t] < |B|
    requires forall t, u :: 0 <= t < u < |order| ==> order[t] != order[u]
    ensures i !in order ==> Into(Segments(B, k, w, order, starts), k, w, i) == 0
    ensures forall t :: 0 <= t < |order| && order[t] == i ==>
      Into(Segments(B, k, w, order, starts), k, w, i) == Way(B, Base(k, w), i, starts[t])
    decreases |order|
  {
    hide Base, Way, RowOps, Into;
    if order == [] {
      IntoNone(k, w, i);
    } else {
      var t := |order| - 1;
      var before, last := Segments(B, k, w, order[..t], starts[..t]), RowOps(B, k, w, order[t], starts[t]);
      SegmentsWrite(B, k, w, order[..t], starts[..t], i);
      IntoConcat(before, last, k, w, i);
      RowOpsWrite(B, k, w, order[t], starts[t]);
      IntoOwn(last, k, w, order[t], i);
    }
  }

  lemma IntoNone(k: nat, w: nat, i: nat)
    requires w >= 1
    ensures Into([], k, w, i) == 0
  {
  }

  /** Row number `t` takes no more operations than any row still left would take, made from scratch or
      from any of the rows before: the way is the cheapest and so is the choice of the row. */
  lemma CheapestFirst(ops: seq<Op>, B: seq<BitRow>, k: nat, w: nat, order: seq<nat>, starts: seq<int>, t: nat, r: nat, f: int)
    requires OncePerRow(ops, B, k, w, order, starts) && t < |order|
    requires r < |B| && r !in order[..t] && (f == -1 || f in order[..t])
    ensures order[t] < |B| && |B[order[t]]| == |B[r]| == Base(k, w)
    ensures starts[t] == -1 || (starts[t] in order[..t] && 0 <= starts[t] < |B| && |B[starts[t]]| == Base(k, w))
    ensures Into(ops, k, w, order[t]) ==
      if starts[t] == -1 then Weight(B[order[t]], Base(k, w)) else 1 + Weight(RowXor(B[order[t]], B[starts[t]]), Base(k, w))
    ensures 0 <= f ==> f < |B| && |B[f]| == Base(k, w)
    ensures Into(ops, k, w, order[t]) <= if f == -1 then Weight(B[r], Base(k, w)) else 1 + Weight(RowXor(B[r], B[f]), Base(k, w))
  {
    hide *;
    RowAt(ops, B, k, w, order, starts, t);
    ChoiceAt(B, Base(k, w), order[..t], order[t], starts[t], r, f);
  }

  lemma RowAt(ops: seq<Op>, B: seq<BitRow>, k: nat, w: nat, order: seq<nat>, starts: seq<int>, t: nat)
    requires OncePerRow(ops, B, k, w, order, starts) && t < |order|
    ensures w >= 1 && BitMatrix(B, |B|, Base(k, w)) && |starts| == |order| && order[t] < |B| && -1 <= starts[t] < |B|
    ensures RightStep(B, Base(k, w), order[..t], order[t], starts[t])
    ensures Into(ops, k, w, order[t]) == Way(B, Base(k, w), order[t], starts[t])
  {
    hide Base, Into, Segments, Way, RightStep;
    SegmentsWrite(B, k, w, order, starts, order[t]);
  }

  lemma ChoiceAt(B: seq<BitRow>, K: nat, before: seq<nat>, row: nat, start: int, r: nat, f: int)
    requires BitMatrix(B, |B|, K) && row < |B| && -1 <= start < |B| && RightStep(B, K, before, row, start)
    requires r < |B| && r !in before && (f == -1 || f in before)
    ensures |B[row]| == |B[r]| == K && -1 <= f < |B|
    ensures start == -1 || (start in before && 0 <= start < |B| && |B[start]| == K)
    ensures Way(B, K, row, start) == if start == -1 then Weight(B[row], K) else 1 + Weight(RowXor(B[row], B[start]), K)
    ensures 0 <= f ==> f < |B| && |B[f]| == K
    ensures Way(B, K, row, start) <= if f == -1 then Weight(B[r], K) else 1 + Weight(RowXor(B[r], B[f]), K)
  {
    hide Weight, RowXor;
    assert Way(B, K, row, start) <= Way(B, K, r, f);
  }
}
