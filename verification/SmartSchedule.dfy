/** `jerasure_smart_bitmatrix_to_schedule`: a row may start from the packet of a row that is
    already finished, when the difference has fewer ones.  The rows still to do are a linked list
    in the arrays `flink` and `blink`. */
module SmartSchedule {
  import opened RowMajor
  import opened BitAlgebra
  import opened Schedule
  import opened SmartPlan

  // ----- the linked list

  function Link(rem: seq<nat>, p: int): int { if 0 <= p < |rem| then rem[p] else -1 }

  /** The list that starts at `top` runs through `rem`, in ascending order. */
  ghost predicate Linked(flink: seq<int>, blink: seq<int>, top: int, rem: seq<nat>) {
    && |flink| == |blink| && top == Link(rem, 0)
    && Ascending(rem)
    && (forall p :: 0 <= p < |rem| ==> rem[p] < |flink| && flink[rem[p]] == Link(rem, p + 1) && blink[rem[p]] == Link(rem, p - 1))
  }

  function Without(rem: seq<nat>, p: nat): seq<nat>
    requires p < |rem|
  {
    rem[..p] + rem[p + 1..]
  }

  lemma Unlink(flink: seq<int>, blink: seq<int>, top: int, rem: seq<nat>, p: nat, flink': seq<int>, blink': seq<int>, top': int)
    requires Linked(flink, blink, top, rem) && p < |rem| && |flink'| == |blink'| == |flink|
    requires top' == if p == 0 then Link(rem, 1) else top
    requires forall i :: 0 <= i < |flink| ==> flink'[i] == if i == Link(rem, p - 1) then Link(rem, p + 1) else flink[i]
    requires forall i :: 0 <= i < |blink| ==> blink'[i] == if i == Link(rem, p + 1) then Link(rem, p - 1) else blink[i]
    ensures Linked(flink', blink', top', Without(rem, p))
  {
    hide Without, Link;
    var r := Without(rem, p);
    WithoutAt(rem, p, 0);
    forall q | 0 <= q < |r|
      ensures r[q] < |flink'| && flink'[r[q]] == Link(r, q + 1) && blink'[r[q]] == Link(r, q - 1)
    {
      UnlinkAt(flink, blink, top, rem, p, q);
    }
    forall q, q' | 0 <= q < q' < |r| ensures r[q] < r[q'] {
      WithoutAt(rem, p, q);
      WithoutAt(rem, p, q');
    }
    WithoutAt(rem, p, 0);
  }

  lemma WithoutAt(rem: seq<nat>, p: nat, q: int)
    requires p < |rem|
    ensures |Without(rem, p)| == |rem| - 1 && Link(Without(rem, p), q) == if q < p then Link(rem, q) else Link(rem, q + 1)
    ensures 0 <= q < |rem| - 1 ==> Without(rem, p)[q] == rem[if q < p then q else q + 1]
  {
  }

  lemma UnlinkAt(flink: seq<int>, blink: seq<int>, top: int, rem: seq<nat>, p: nat, q: nat)
    requires Linked(flink, blink, top, rem) && p < |rem| && q < |Without(rem, p)|
    ensures var i := Without(rem, p)[q];
      && i < |flink| && (i == Link(rem, p - 1) <==> q == p - 1) && (i == Link(rem, p + 1) <==> q == p)
      && Link(Without(rem, p), q + 1) == (if q == p - 1 then Link(rem, p + 1) else flink[i])
      && Link(Without(rem, p), q - 1) == (if q == p then Link(rem, p - 1) else blink[i])
  {
    hide *;
    WithoutAt(rem, p, q);
    WithoutAt(rem, p, q + 1);
    WithoutAt(rem, p, q - 1);
    var x := if q < p then q else q + 1;
    LinkedAt(flink, blink, top, rem, x, p - 1);
    LinkedAt(flink, blink, top, rem, x, p + 1);
  }

  lemma LinkedAt(flink: seq<int>, blink: seq<int>, top: int, rem: seq<nat>, x: nat, y: int)
    requires Linked(flink, blink, top, rem) && x < |rem|
    ensures |flink| == |blink| && rem[x] < |flink| && flink[rem[x]] == Link(rem, x + 1) && blink[rem[x]] == Link(rem, x - 1)
    ensures rem[x] == Link(rem, y) <==> x == y
  {
  }

  /** Row `i` is on the list exactly when it is not done. */
  ghost predicate Pending(rem: seq<nat>, done: seq<bool>) {
    && (forall p :: 0 <= p < |rem| ==> rem[p] < |done| && !done[rem[p]])
    && (forall i :: 0 <= i < |done| && !done[i] ==> i in rem)
  }

  lemma PendingStep(rem: seq<nat>, done: seq<bool>, p: nat)
    requires Pending(rem, done) && p < |rem| && Ascending(rem)
    ensures Pending(Without(rem, p), done[rem[p] := true])
  {
    var r := Without(rem, p);
    forall q | 0 <= q < |r| ensures r[q] < |done| && !done[r[q]] && r[q] != rem[p] {
      assert r[q] == rem[if q < p then q else q + 1];
    }
    forall i | 0 <= i < |done| && !done[i] && i != rem[p] ensures i in r {
      var q :| 0 <= q < |rem| && rem[q] == i;
      assert r[if q < p then q else q - 1] == i;
    }
  }

  // ----- the state between two rows

  ghost predicate State(ops: seq<Op>, B: seq<BitRow>, k: nat, m: nat, w: nat, done: seq<bool>, rem: seq<nat>) {
    && Scheduled(ops, B, k, m, w, done) && Pending(rem, done)
    && |ops| + Remaining(B, done, |B|) <= TotalWeight(B)
  }

  lemma StateStart(B: seq<BitRow>, k: nat, m: nat, w: nat, done: seq<bool>, rem: seq<nat>)
    requires BitMatrix(B, Base(m, w), Base(k, w)) && done == seq(|B|, _ => false)
    requires |rem| == |B| && forall i :: 0 <= i < |rem| ==> rem[i] == i
    ensures State([], B, k, m, w, done, rem)
  {
    NothingScheduled(B, k, m, w, done);
    forall i | 0 <= i < |done| ensures i in rem { assert rem[i] == i; }
  }

  lemma StatePlain(ops: seq<Op>, B: seq<BitRow>, k: nat, m: nat, w: nat, done: seq<bool>, rem: seq<nat>, p: nat)
    requires w >= 1 && State(ops, B, k, m, w, done, rem) && p < |rem| && Ascending(rem)
    ensures rem[p] < |B| && |B[rem[p]]| == Base(k, w)
    ensures State(ops + PlainOps(B[rem[p]], k, w, rem[p], Base(k, w)), B, k, m, w, done[rem[p] := true], Without(rem, p))
  {
    var i := rem[p];
    PendingStep(rem, done, p);
    RemainingStep(B, done, i, |B|);
    PlainLength(B[i], k, w, i, |B[i]|);
    hide Base;
    EmitPlain(ops, B, k, m, w, done, i);
  }

  lemma StateFrom(ops: seq<Op>, B: seq<BitRow>, k: nat, m: nat, w: nat, done: seq<bool>, rem: seq<nat>, p: nat, from: nat)
    requires w >= 1 && State(ops, B, k, m, w, done, rem) && p < |rem| && Ascending(rem)
    requires rem[p] < |B| == |done| && BitMatrix(B, |B|, Base(k, w)) && from < |B| && done[from] && Weight(B[from], Base(k, w)) > 0
    requires 1 + Weight(RowXor(B[rem[p]], B[from]), Base(k, w)) < Weight(B[rem[p]], Base(k, w))
    ensures State(ops + FromOps(B, k, w, from, rem[p]), B, k, m, w, done[rem[p] := true], Without(rem, p))
  {
    var i := rem[p];
    PendingStep(rem, done, p);
    RemainingStep(B, done, i, |B|);
    hide Base;
    EmitFrom(ops, B, k, m, w, done, from, i);
  }

  lemma StateEnd(ops: seq<Op>, B: seq<BitRow>, k: nat, m: nat, w: nat, done: seq<bool>)
    requires State(ops, B, k, m, w, done, [])
    ensures Implements(ops, B, k, m, w) && |ops| <= TotalWeight(B)
  {
    AllScheduled(ops, B, k, m, w, done);
  }

  // ----- the order of the rows

  /** How row number `t` of the schedule is made: from scratch, or from the row `start`. */
  function RowOps(B: seq<BitRow>, k: nat, w: nat, row: nat, start: int): seq<Op>
    requires w >= 1 && BitMatrix(B, |B|, Base(k, w)) && row < |B| && -1 <= start < |B|
  {
    if start == -1 then PlainOps(B[row], k, w, row, Base(k, w)) else FromOps(B, k, w, start, row)
  }

  /** The rows in their order, one after the other. */
  function Segments(B: seq<BitRow>, k: nat, w: nat, order: seq<nat>, starts: seq<int>): seq<Op>
    requires w >= 1 && BitMatrix(B, |B|, Base(k, w)) && |order| == |starts|
    requires forall t :: 0 <= t < |order| ==> order[t] < |B| && -1 <= starts[t] < |B|
    decreases |order|
  {
    if order == [] then []
    else
      var t := |order| - 1;
      Segments(B, k, w, order[..t], starts[..t]) + RowOps(B, k, w, order[t], starts[t])
  }

  /** No row comes twice, each is made in the first of the cheapest ways, and each is the first of the
      cheapest rows that are left. */
  ghost predicate Ordered(B: seq<BitRow>, K: nat, order: seq<nat>, starts: seq<int>) {
    && BitMatrix(B, |B|, K) && |order| == |starts| && InRange(B, order) && (forall t :: 0 <= t < |order| ==> -1 <= starts[t] < |B|)
    && (forall t, u :: 0 <= t < u < |order| ==> order[t] != order[u])
    && forall t :: 0 <= t < |order| ==> RightStep(B, K, order[..t], order[t], starts[t])
  }

  ghost predicate RightStep(B: seq<BitRow>, K: nat, before: seq<nat>, row: nat, start: int)
    requires BitMatrix(B, |B|, K)
  {
    InRange(B, before) && row < |B| && FirstCheapest(B, K, before, row, start) && CheapestRow(B, K, before, row, start)
  }

  /** The rows done are those in `order`. */
  ghost predicate DoneAre(done: seq<bool>, order: seq<nat>) {
    (forall t :: 0 <= t < |order| ==> order[t] < |done|) && forall r: nat :: r < |done| ==> (done[r] <==> r in order)
  }

  lemma DoneStep(done: seq<bool>, order: seq<nat>, row: nat)
    requires DoneAre(done, order) && row < |done|
    ensures DoneAre(done[row := true], order + [row])
  {
    forall r: nat | r < |done| ensures r in order + [row] <==> r in order || r == row {}
  }

  /** The operations so far are those of the rows in `order`, which are the rows done. */
  ghost predicate Laid(ops: seq<Op>, B: seq<BitRow>, k: nat, w: nat, order: seq<nat>, starts: seq<int>) {
    w >= 1 && Ordered(B, Base(k, w), order, starts) && ops == Segments(B, k, w, order, starts)
  }

  lemma LaidStart(B: seq<BitRow>, k: nat, w: nat, n: nat)
    requires w >= 1 && BitMatrix(B, n, Base(k, w))
    ensures Laid([], B, k, w, [], [])
  {
  }

  lemma LayRow(ops: seq<Op>, B: seq<BitRow>, k: nat, w: nat, order: seq<nat>, starts: seq<int>, row: nat, start: int)
    requires Laid(ops, B, k, w, order, starts) && row < |B| && row !in order && -1 <= start < |B|
    requires BitMatrix(B, |B|, Base(k, w)) && RightStep(B, Base(k, w), order, row, start)
    ensures Laid(ops + RowOps(B, k, w, row, start), B, k, w, order + [row], starts + [start])
  {
    hide Base, BitMatrix, RightStep, RowOps;
    var o, g, n := order + [row], starts + [start], |order|;
    assert o[..n] == order && g[..n] == starts;
    forall t | 0 <= t < n + 1 ensures RightStep(B, Base(k, w), o[..t], o[t], g[t]) {
      if t < n {
        assert o[..t] == order[..t];
        assert RightStep(B, Base(k, w), order[..t], order[t], starts[t]);
      }
    }
  }

  /** What a finished schedule is: every row exactly once, in an order in which it can be computed. */
  ghost predicate OncePerRow(ops: seq<Op>, B: seq<BitRow>, k: nat, w: nat, order: seq<nat>, starts: seq<int>) {
    && w >= 1 && Ordered(B, Base(k, w), order, starts) && (forall r: nat :: r < |B| ==> r in order)
    && ops == Segments(B, k, w, order, starts)
  }

  lemma LaidAll(ops: seq<Op>, B: seq<BitRow>, k: nat, w: nat, order: seq<nat>, starts: seq<int>, done: seq<bool>)
    requires Laid(ops, B, k, w, order, starts) && DoneAre(done, order) && |done| == |B| && Pending([], done)
    ensures OncePerRow(ops, B, k, w, order, starts)
  {
  }

  // ----- the loops

  /** The number of ones in row `i` of the stored matrix. */
  method CountRow(B: array<bool>, m: nat, n: nat, i: nat) returns (no: nat)
    requires B.Length == Base(m, n) && i < m
    ensures no == Weight(Rows(B[..], m, n)[i], n)
  {
    hide Base, Rows;
    ghost var row := Rows(B[..], m, n)[i];
    no := 0;
    var j: nat := 0;
    while j < n
      invariant j <= n && no == Weight(row, j)
    {
      if At(B, m, n, i, j) { no := no + 1; }
      j := j + 1;
    }
  }

  /** `1 +` the number of columns in which rows `a` and `i` differ. */
  method CountDifference(B: array<bool>, m: nat, n: nat, a: nat, i: nat) returns (no: nat)
    requires B.Length == Base(m, n) && i < m && a < m
    ensures no == 1 + Weight(RowXor(Rows(B[..], m, n)[a], Rows(B[..], m, n)[i]), n)
  {
    hide Base, Rows;
    ghost var row := RowXor(Rows(B[..], m, n)[a], Rows(B[..], m, n)[i]);
    no := 1;
    var j: nat := 0;
    while j < n
      invariant j <= n && no == 1 + Weight(row, j)
    {
      if At(B, m, n, a, j) != At(B, m, n, i, j) { no := no + 1; }
      j := j + 1;
    }
  }

  method EmitRowPlain(k: nat, w: nat, B: array<bool>, m: nat, row: nat, ops0: seq<Op>) returns (ops: seq<Op>)
    requires w >= 1 && B.Length == Base(m, Base(k, w)) && row < m
    ensures ops == ops0 + PlainOps(Rows(B[..], m, Base(k, w))[row], k, w, row, Base(k, w))
  {
    hide Base, Rows, PacketOp;
    var K := Base(k, w);
    ghost var bits := Rows(B[..], m, K)[row];
    ops := ops0;
    var optodo := false;
    var j: nat := 0;
    while j < K
      invariant j <= K && ops == ops0 + PlainOps(bits, k, w, row, j) && optodo == (PlainOps(bits, k, w, row, j) != [])
    {
      if At(B, m, K, row, j) {
        ops := ops + [PacketOp(k, w, j, row, optodo)];
        optodo := true;
      }
      j := j + 1;
    }
  }

  method EmitRowFrom(k: nat, w: nat, B: array<bool>, m: nat, from: nat, row: nat, ops0: seq<Op>) returns (ops: seq<Op>)
    requires w >= 1 && B.Length == Base(m, Base(k, w)) && row < m && from < m
    ensures ops == ops0 + FromOps(Rows(B[..], m, Base(k, w)), k, w, from, row)
  {
    hide Base, Rows, PacketOp, CopyOp, RowXor;
    var K := Base(k, w);
    ghost var R: seq<BitRow> := Rows(B[..], m, K);
    ghost var bits := RowXor(R[row], R[from]);
    ops := ops0 + [CopyOp(k, w, from, row)];
    ghost var pre := ops;
    var j: nat := 0;
    while j < K
      invariant j <= K && ops == pre + PatchOps(bits, k, w, row, j)
    {
      if At(B, m, K, row, j) != At(B, m, K, from, j) {
        ops := ops + [PacketOp(k, w, j, row, true)];
      }
      j := j + 1;
    }
    assert pre + PatchOps(bits, k, w, row, K) == ops0 + FromOps(R, k, w, from, row);
  }

  /** Fill the four arrays and pick the first row. */
  method Prepare(k: nat, w: nat, B: array<bool>, m: nat, diff: array<int>, from: array<int>, flink: array<int>, blink: array<int>,
      ghost rem: seq<nat>) returns (bestrow: nat, bestdiff: int)
    requires m > 0 && B.Length == Base(m, Base(k, w)) && diff.Length == from.Length == flink.Length == blink.Length == m
    requires diff != from && diff != flink && diff != blink && from != flink && from != blink && flink != blink
    requires |rem| == m && forall i :: 0 <= i < m ==> rem[i] == i
    modifies diff, from, flink, blink
    ensures Linked(flink[..], blink[..], 0, rem)
    ensures Plans(Rows(B[..], m, Base(k, w)), Base(k, w), [], rem, 0, |rem|, from[..], diff[..])
    ensures Best(diff[..], rem, |rem|, bestrow, bestdiff, Base(k, w) + 1)
  {
    hide *;
    var K := Base(k, w);
    ghost var R: seq<BitRow> := Rows(B[..], m, K);
    IsMatrix(B[..], m, K);
    bestrow := 0;
    bestdiff := K + 1;
    StartFilled(R, K, diff[..], from[..], flink[..], blink[..], rem, bestrow);
    var i: nat := 0;
    while i < m
      invariant i <= m && Filled(R, K, i, diff[..], from[..], flink[..], blink[..])
      invariant Best(diff[..], rem, i, bestrow, bestdiff, K + 1)
    {
      ghost var d, f, fl, bl := diff[..], from[..], flink[..], blink[..];
      var no := CountRow(B, m, K, i);
      diff[i] := no;
      from[i] := -1;
      flink[i] := i + 1;
      blink[i] := i - 1;
      assert diff[..] == d[i := no] && from[..] == f[i := -1] && flink[..] == fl[i := i + 1] && blink[..] == bl[i := i - 1];
      FillRow(R, K, i, d, f, fl, bl, rem, bestrow, bestdiff);
      if no < bestdiff {
        bestdiff := no;
        bestrow := i;
      }
      i := i + 1;
    }
    ghost var fl := flink[..];
    flink[m - 1] := -1;
    EndFilled(R, K, diff[..], from[..], fl, blink[..], flink[..], rem);
  }

  /** What the first loop has written. */
  ghost predicate Filled(B: seq<BitRow>, K: nat, i: nat, diff: seq<int>, from: seq<int>, flink: seq<int>, blink: seq<int>) {
    && BitMatrix(B, |B|, K) && i <= |B| == |diff| == |from| == |flink| == |blink|
    && forall r: nat :: r < i ==> from[r] == -1 && diff[r] == Weight(B[r], K) && flink[r] == r + 1 && blink[r] == r - 1
  }

  lemma StartFilled(B: seq<BitRow>, K: nat, diff: seq<int>, from: seq<int>, flink: seq<int>, blink: seq<int>, rem: seq<nat>, bestrow: nat)
    requires BitMatrix(B, |B|, K) && |diff| == |from| == |flink| == |blink| == |B| == |rem|
    requires forall i :: 0 <= i < |rem| ==> rem[i] == i
    ensures Filled(B, K, 0, diff, from, flink, blink) && Best(diff, rem, 0, bestrow, K + 1, K + 1)
  {
  }

  lemma FillRow(B: seq<BitRow>, K: nat, i: nat, diff: seq<int>, from: seq<int>, flink: seq<int>, blink: seq<int>,
      rem: seq<nat>, bestrow: nat, bestdiff: int)
    requires Filled(B, K, i, diff, from, flink, blink) && i < |B| == |rem| && forall r :: 0 <= r < |rem| ==> rem[r] == r
    requires Best(diff, rem, i, bestrow, bestdiff, K + 1)
    ensures |B[i]| == K && i < |diff| == |from| == |flink| == |blink|
    ensures Filled(B, K, i + 1, diff[i := Weight(B[i], K)], from[i := -1], flink[i := i + 1], blink[i := i - 1])
    ensures var no, d := Weight(B[i], K), diff[i := Weight(B[i], K)];
      if no < bestdiff then Best(d, rem, i + 1, i, no, K + 1) else Best(d, rem, i + 1, bestrow, bestdiff, K + 1)
  {
    hide Best, Weight;
    WeightBound(B[i], K);
    BestStep(diff, diff[i := Weight(B[i], K)], rem, i, bestrow, bestdiff, K + 1);
  }

  lemma EndFilled(B: seq<BitRow>, K: nat, diff: seq<int>, from: seq<int>, flink: seq<int>, blink: seq<int>, flink': seq<int>, rem: seq<nat>)
    requires Filled(B, K, |B|, diff, from, flink, blink) && |B| == |rem| > 0 && forall i :: 0 <= i < |rem| ==> rem[i] == i
    requires flink' == flink[|B| - 1 := -1]
    ensures Linked(flink', blink, 0, rem) && Plans(B, K, [], rem, 0, |rem|, from, diff)
  {
    hide Linked, Plans, Weight;
    FirstList(flink', blink, rem);
    FirstPlans(B, K, rem, from, diff);
  }

  lemma FirstList(flink: seq<int>, blink: seq<int>, rem: seq<nat>)
    requires |flink| == |blink| == |rem| > 0 && forall i :: 0 <= i < |rem| ==> rem[i] == i
    requires forall r :: 0 <= r < |rem| ==> flink[r] == (if r + 1 < |rem| then r + 1 else -1) && blink[r] == r - 1
    ensures Linked(flink, blink, 0, rem)
  {
  }

  /** Take `row` off the list. */
  method TakeOff(flink: array<int>, blink: array<int>, top: int, row: nat, ghost rem: seq<nat>, ghost p: nat) returns (top': int)
    requires flink != blink && Linked(flink[..], blink[..], top, rem) && p < |rem| && row == rem[p]
    modifies flink, blink
    ensures Linked(flink[..], blink[..], top', Without(rem, p))
  {
    ghost var f, b := flink[..], blink[..];
    top' := top;
    if blink[row] == -1 {
      top' := flink[row];
      if top' != -1 { blink[top'] := -1; }
    } else {
      flink[blink[row]] := flink[row];
      if flink[row] != -1 {
        blink[flink[row]] := blink[row];
      }
    }
    Unlink(f, b, top, rem, p, flink[..], blink[..], top');
  }

  /** Is row `i` cheaper through the row just done? */
  method Relax(k: nat, w: nat, B: array<bool>, m: nat, diff: array<int>, from: array<int>, row: nat, i: nat, ghost order: seq<nat>)
    requires B.Length == Base(m, Base(k, w)) && diff.Length == from.Length == m && diff != from && row < m && i < m && row !in order
    requires BitMatrix(Rows(B[..], m, Base(k, w)), m, Base(k, w)) && InRange(Rows(B[..], m, Base(k, w)), order)
    requires InRange(Rows(B[..], m, Base(k, w)), order + [row]) && Plan(Rows(B[..], m, Base(k, w)), Base(k, w), order, i, from[i], diff[i])
    modifies diff, from
    ensures Plan(Rows(B[..], m, Base(k, w)), Base(k, w), order + [row], i, from[i], diff[i])
    ensures forall r :: 0 <= r < m && r != i ==> diff[r] == old(diff[r]) && from[r] == old(from[r])
  {
    hide Base, Rows, BitMatrix;
    var K := Base(k, w);
    ghost var R: seq<BitRow> := Rows(B[..], m, K);
    FirstCheapestStep(R, K, order, row, i, from[i]);
    var no := CountDifference(B, m, K, row, i);
    hide FirstCheapest;
    Difference(R, K, row, i);
    if no < diff[i] {
      from[i] := row;
      diff[i] := no;
    }
  }

  lemma Difference(B: seq<BitRow>, K: nat, row: nat, i: nat)
    requires BitMatrix(B, |B|, K) && row < |B| && i < |B|
    ensures |B[row]| == |B[i]| == K && 1 + Weight(RowXor(B[row], B[i]), K) == Way(B, K, i, row)
  {
    RowXorComm(B[row], B[i]);
  }

  /** Look at every remaining row: is it cheaper through the row just done?  Pick the cheapest. */
  method Improve(k: nat, w: nat, B: array<bool>, m: nat, diff: array<int>, from: array<int>, flink: array<int>, ghost blink: seq<int>,
      top: int, row: nat, ghost rem: seq<nat>, ghost order: seq<nat>) returns (bestrow: nat, bestdiff: int)
    requires B.Length == Base(m, Base(k, w)) && diff.Length == from.Length == flink.Length == m
    requires diff != from && diff != flink && from != flink
    requires Linked(flink[..], blink, top, rem) && row < m && row !in order
    requires BitMatrix(Rows(B[..], m, Base(k, w)), m, Base(k, w))
    requires Plans(Rows(B[..], m, Base(k, w)), Base(k, w), order, rem, 0, |rem|, from[..], diff[..])
    modifies diff, from
    ensures Plans(Rows(B[..], m, Base(k, w)), Base(k, w), order + [row], rem, 0, |rem|, from[..], diff[..])
    ensures Best(diff[..], rem, |rem|, bestrow, bestdiff, Base(k, w) + 1)
  {
    hide *;
    ListFacts(flink[..], blink, top, rem);
    var K := Base(k, w);
    ghost var R: seq<BitRow> := Rows(B[..], m, K);
    bestrow := row;
    bestdiff := K + 1;
    StartHalfway(R, K, order, row, rem, from[..], diff[..]);
    BestStart(R, K, order, rem, from[..], diff[..], bestrow, bestdiff);
    ghost var q: nat := 0;
    var i := top;
    while i != -1
      invariant q <= |rem| && i == Link(rem, q)
      invariant Halfway(R, K, order, row, rem, q, from[..], diff[..]) && Best(diff[..], rem, q, bestrow, bestdiff, K + 1)
      decreases |rem| - q
    {
      ghost var f, d := from[..], diff[..];
      LinkIs(rem, q);
      NextPlan(R, K, order, row, rem, q, f, d);
      Relax(k, w, B, m, diff, from, row, i, order);
      HalfwayStep(R, K, order, row, rem, q, f, d, from[..], diff[..]);
      BestCandidate(R, K, order, row, from[..], d, diff[..], rem, q, bestrow, bestdiff);
      if diff[i] < bestdiff {
        bestdiff := diff[i];
        bestrow := i;
      }
      ListStep(flink[..], blink, top, rem, q);
      q := q + 1;
      i := flink[i];
    }
    EndHalfway(R, K, order, row, rem, q, from[..], diff[..]);
  }

  lemma LinkIs(rem: seq<nat>, q: nat)
    requires Link(rem, q) != -1
    ensures q < |rem| && Link(rem, q) == rem[q]
  {
  }

  lemma StartHalfway(B: seq<BitRow>, K: nat, order: seq<nat>, row: nat, rem: seq<nat>, from: seq<int>, diff: seq<int>)
    requires Plans(B, K, order, rem, 0, |rem|, from, diff) && row < |B|
    ensures Halfway(B, K, order, row, rem, 0, from, diff)
  {
  }

  lemma EndHalfway(B: seq<BitRow>, K: nat, order: seq<nat>, row: nat, rem: seq<nat>, q: nat, from: seq<int>, diff: seq<int>)
    requires Halfway(B, K, order, row, rem, q, from, diff) && q <= |rem| && Link(rem, q) == -1
    ensures q == |rem| && Plans(B, K, order + [row], rem, 0, |rem|, from, diff)
  {
  }

  lemma ListStep(flink: seq<int>, blink: seq<int>, top: int, rem: seq<nat>, q: nat)
    requires Linked(flink, blink, top, rem) && q < |rem|
    ensures rem[q] < |flink| && flink[rem[q]] == Link(rem, q + 1)
  {
  }

  lemma BestStart(B: seq<BitRow>, K: nat, order: seq<nat>, rem: seq<nat>, from: seq<int>, diff: seq<int>, bestrow: nat, limit: int)
    requires Plans(B, K, order, rem, 0, |rem|, from, diff)
    ensures Best(diff, rem, 0, bestrow, limit, limit)
  {
  }

  lemma BestCandidate(B: seq<BitRow>, K: nat, order: seq<nat>, row: nat, from: seq<int>, diff: seq<int>, diff': seq<int>,
      rem: seq<nat>, q: nat, bestrow: nat, bestdiff: int)
    requires q < |rem| && Halfway(B, K, order, row, rem, q + 1, from, diff') && Ascending(rem)
    requires Best(diff, rem, q, bestrow, bestdiff, K + 1) && |diff'| == |diff| && rem[q] < |diff|
    requires forall i :: 0 <= i < |diff| && i != rem[q] ==> diff'[i] == diff[i]
    ensures var d := diff'[rem[q]];
      if d < bestdiff then Best(diff', rem, q + 1, rem[q], d, K + 1) else Best(diff', rem, q + 1, bestrow, bestdiff, K + 1)
  {
    hide FirstCheapest, Way, Best;
    assert Plan(B, K, order + [row], rem[q], from[rem[q]], diff'[rem[q]]);
    StartGains(B, K, order + [row], rem[q], from[rem[q]]);
    BestStep(diff, diff', rem, q, bestrow, bestdiff, K + 1);
  }

  /** All that holds between two rows: the schedule so far, the list, the plans and the choice. */
  ghost predicate Ready(ops: seq<Op>, B: seq<BitRow>, k: nat, m: nat, w: nat, done: seq<bool>, order: seq<nat>, rem: seq<nat>,
      from: seq<int>, diff: seq<int>, flink: seq<int>, blink: seq<int>, top: int, bestrow: nat, bestdiff: int)
  {
    && |B| == |done| && BitMatrix(B, |B|, Base(k, w)) && State(ops, B, k, m, w, done, rem) && DoneAre(done, order)
    && Plans(B, Base(k, w), order, rem, 0, |rem|, from, diff) && Linked(flink, blink, top, rem)
    && Best(diff, rem, |rem|, bestrow, bestdiff, Base(k, w) + 1)
  }

  /** What is known of the row chosen. */
  ghost predicate Picked(B: seq<BitRow>, K: nat, done: seq<bool>, order: seq<nat>, rem: seq<nat>, p: nat, row: nat, start: int)
  {
    && BitMatrix(B, |B|, K) && |done| == |B| && p < |rem| && rem[p] == row && row < |B| && !done[row] && row !in order
    && -1 <= start < |B| && RightStep(B, K, order, row, start) && |Without(rem, p)| < |rem|
  }

  lemma PickRow(ops: seq<Op>, B: seq<BitRow>, k: nat, m: nat, w: nat, done: seq<bool>, order: seq<nat>, rem: seq<nat>,
      from: seq<int>, diff: seq<int>, flink: seq<int>, blink: seq<int>, top: int, row: nat, bestdiff: int) returns (p: nat)
    requires w >= 1 && Ready(ops, B, k, m, w, done, order, rem, from, diff, flink, blink, top, row, bestdiff) && top != -1
    ensures |from| == |B| && row < |from| && Picked(B, Base(k, w), done, order, rem, p, row, from[row])
  {
    hide Linked, Scheduled, Weight, Base, Plan, Best, Without, CheapestRow, FirstCheapest, Way, BitMatrix;
    ListFacts(flink, blink, top, rem);
    assert rem != [];
    forall r: nat | r < |B| && r !in order ensures r in rem { assert !done[r]; }
    BestIsCheapest(B, Base(k, w), order, rem, from, diff, row, bestdiff, Base(k, w) + 1);
    p :| 0 <= p < |rem| && rem[p] == row;
    assert !done[rem[p]];
    WithoutAt(rem, p, 0);
    PlanIsFirst(B, Base(k, w), order, row, from[row], diff[row]);
  }

  lemma PlanIsFirst(B: seq<BitRow>, K: nat, order: seq<nat>, row: nat, from: int, diff: int)
    requires BitMatrix(B, |B|, K) && InRange(B, order) && row < |B| && Plan(B, K, order, row, from, diff)
    ensures FirstCheapest(B, K, order, row, from) && -1 <= from < |B|
  {
  }

  lemma StateNext(ops: seq<Op>, B: seq<BitRow>, k: nat, m: nat, w: nat, done: seq<bool>, order: seq<nat>, rem: seq<nat>, p: nat,
      row: nat, start: int)
    requires w >= 1 && State(ops, B, k, m, w, done, rem) && Picked(B, Base(k, w), done, order, rem, p, row, start)
    requires Ascending(rem) && DoneAre(done, order)
    ensures State(ops + RowOps(B, k, w, row, start), B, k, m, w, done[row := true], Without(rem, p))
  {
    hide Base, State, FirstCheapest, CheapestRow, Weight, FromOps, PlainOps;
    if start == -1 {
      StatePlain(ops, B, k, m, w, done, rem, p);
    } else {
      StartGains(B, Base(k, w), order, row, start);
      StateFrom(ops, B, k, m, w, done, rem, p, start);
    }
  }

  lemma ListFacts(flink: seq<int>, blink: seq<int>, top: int, rem: seq<nat>)
    requires Linked(flink, blink, top, rem)
    ensures (top == -1 <==> rem == []) && top == Link(rem, 0)
    ensures Ascending(rem)
  {
  }

  /** What the loop takes from the choice: the row goes off the list and into the order. */
  lemma TakeRow(ops: seq<Op>, B: seq<BitRow>, k: nat, m: nat, w: nat, done: seq<bool>, order: seq<nat>, rem: seq<nat>,
      from: seq<int>, diff: seq<int>, flink: seq<int>, blink: seq<int>, top: int, row: nat, bestdiff: int, p: nat)
    requires w >= 1 && Ready(ops, B, k, m, w, done, order, rem, from, diff, flink, blink, top, row, bestdiff)
    requires |from| == |B| && row < |from| && Picked(B, Base(k, w), done, order, rem, p, row, from[row])
    ensures Linked(flink, blink, top, rem) && p < |rem| && rem[p] == row < |B| && |Without(rem, p)| < |rem| && row !in order
    ensures BitMatrix(B, |B|, Base(k, w)) && -1 <= from[row] < |B| && RightStep(B, Base(k, w), order, row, from[row])
    ensures |B[row]| == Base(k, w) && (from[row] >= 0 ==> |B[from[row]]| == Base(k, w))
    ensures State(ops + RowOps(B, k, w, row, from[row]), B, k, m, w, done[row := true], Without(rem, p))
    ensures |done| == |B| && DoneAre(done[row := true], order + [row])
    ensures Plans(B, Base(k, w), order, Without(rem, p), 0, |Without(rem, p)|, from, diff)
  {
    hide Base, State, Plans, Linked, RowOps, RightStep, Best;
    DoneStep(done, order, row);
    ListFacts(flink, blink, top, rem);
    StateNext(ops, B, k, m, w, done, order, rem, p, row, from[row]);
    PlansWithout(B, Base(k, w), order, rem, Without(rem, p), from, diff);
  }

  lemma NextReady(ops: seq<Op>, B: seq<BitRow>, k: nat, m: nat, w: nat, done: seq<bool>, order: seq<nat>, rem: seq<nat>,
      from: seq<int>, diff: seq<int>, flink: seq<int>, blink: seq<int>, top: int, bestrow: nat, bestdiff: int)
    requires |B| == |done| && BitMatrix(B, |B|, Base(k, w)) && State(ops, B, k, m, w, done, rem) && DoneAre(done, order)
    requires Plans(B, Base(k, w), order, rem, 0, |rem|, from, diff) && Linked(flink, blink, top, rem)
    requires Best(diff, rem, |rem|, bestrow, bestdiff, Base(k, w) + 1)
    ensures Ready(ops, B, k, m, w, done, order, rem, from, diff, flink, blink, top, bestrow, bestdiff)
  {
  }

  /** The operations of one row are emitted. */
  method EmitRow(k: nat, w: nat, B: array<bool>, m: nat, row: nat, start: int, ops0: seq<Op>) returns (ops: seq<Op>)
    requires w >= 1 && B.Length == Base(m, Base(k, w)) && row < m && -1 <= start < m
    requires BitMatrix(Rows(B[..], m, Base(k, w)), m, Base(k, w))
    ensures ops == ops0 + RowOps(Rows(B[..], m, Base(k, w)), k, w, row, start)
  {
    hide Base, Rows, PlainOps, FromOps;
    if start == -1 {
      ops := EmitRowPlain(k, w, B, m, row, ops0);
    } else {
      ops := EmitRowFrom(k, w, B, m, start, row, ops0);
    }
  }

  method SmartBitmatrixToSchedule(k: nat, m: nat, w: nat, B: array<bool>) returns (ops: seq<Op>, ghost order: seq<nat>, ghost starts: seq<int>)
    requires w >= 1 && m >= 1 && B.Length == Base(Base(m, w), Base(k, w))
    ensures Implements(ops, Rows(B[..], Base(m, w), Base(k, w)), k, m, w)
    ensures |ops| <= TotalWeight(Rows(B[..], Base(m, w), Base(k, w))) <= B.Length
    ensures OncePerRow(ops, Rows(B[..], Base(m, w), Base(k, w)), k, w, order, starts)
  {
    hide *;
    var M, K := Base(m, w), Base(k, w);
    BaseBefore(0, m, w);
    ghost var R: seq<BitRow> := Rows(B[..], M, K);
    IsMatrix(B[..], M, K);
    var diff, from, flink, blink := new int[M], new int[M], new int[M], new int[M];
    ghost var done: seq<bool> := seq(M, _ => false);
    ghost var rem: seq<nat> := seq(M, i => i);
    var bestrow, bestdiff := Prepare(k, w, B, M, diff, from, flink, blink, rem);
    ops := [];
    order, starts := [], [];
    StateStart(R, k, m, w, done, rem);
    LaidStart(R, k, w, M);
    NothingDone(done, M);
    var top: int := 0;
    NextReady(ops, R, k, m, w, done, order, rem, from[..], diff[..], flink[..], blink[..], top, bestrow, bestdiff);
    while top != -1
      invariant Laid(ops, R, k, w, order, starts)
      invariant |done| == M && diff.Length == from.Length == flink.Length == blink.Length == M
      invariant Ready(ops, R, k, m, w, done, order, rem, from[..], diff[..], flink[..], blink[..], top, bestrow, bestdiff)
      decreases |rem|
    {
      var row := bestrow;
      ghost var p := PickRow(ops, R, k, m, w, done, order, rem, from[..], diff[..], flink[..], blink[..], top, row, bestdiff);
      TakeRow(ops, R, k, m, w, done, order, rem, from[..], diff[..], flink[..], blink[..], top, row, bestdiff, p);
      LayRow(ops, R, k, w, order, starts, row, from[row]);
      top := TakeOff(flink, blink, top, row, rem, p);
      ops := EmitRow(k, w, B, M, row, from[row], ops);
      starts := starts + [from[row]];
      rem := Without(rem, p);
      done := done[row := true];
      ghost var b := blink[..];
      bestrow, bestdiff := Improve(k, w, B, M, diff, from, flink, b, top, row, rem, order);
      order := order + [row];
      NextReady(ops, R, k, m, w, done, order, rem, from[..], diff[..], flink[..], blink[..], top, bestrow, bestdiff);
    }
    LastReady(ops, R, k, m, w, done, order, rem, from[..], diff[..], flink[..], blink[..], bestrow, bestdiff);
    LaidAll(ops, R, k, w, order, starts, done);
    TotalBound(R, K);
  }

  lemma NothingDone(done: seq<bool>, n: nat)
    requires done == seq(n, _ => false)
    ensures DoneAre(done, [])
  {
  }

  lemma LastReady(ops: seq<Op>, B: seq<BitRow>, k: nat, m: nat, w: nat, done: seq<bool>, order: seq<nat>, rem: seq<nat>,
      from: seq<int>, diff: seq<int>, flink: seq<int>, blink: seq<int>, bestrow: nat, bestdiff: int)
    requires Ready(ops, B, k, m, w, done, order, rem, from, diff, flink, blink, -1, bestrow, bestdiff)
    ensures Implements(ops, B, k, m, w) && |ops| <= TotalWeight(B) && Pending([], done) && DoneAre(done, order) && |done| == |B|
  {
    ListFacts(flink, blink, -1, rem);
    StateEnd(ops, B, k, m, w, done);
  }
}
