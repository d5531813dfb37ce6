/** What the smart scheduler goes by: each row in the cheapest way that the rows already made allow,
    and the cheapest row first. */
module SmartPlan {
  import opened BitAlgebra
  import opened Schedule

  /** The operations that row `i` takes: from scratch, or a copy of row `from` and one for each difference. */
  ghost function Way(B: seq<BitRow>, K: nat, i: nat, from: int): nat
    requires BitMatrix(B, |B|, K) && i < |B| && -1 <= from < |B|
  {
    if from == -1 then Weight(B[i], K) else 1 + Weight(RowXor(B[i], B[from]), K)
  }

  ghost predicate InRange(B: seq<BitRow>, order: seq<nat>) { forall t :: 0 <= t < |order| ==> order[t] < |B| }

  /** No way to row `i` is cheaper, and those that come earlier, from scratch or from an earlier row, are dearer. */
  ghost predicate FirstCheapest(B: seq<BitRow>, K: nat, order: seq<nat>, i: nat, from: int)
    requires BitMatrix(B, |B|, K) && InRange(B, order) && i < |B|
  {
    && (from == -1 || (from in order && Way(B, K, i, from) < Way(B, K, i, -1)))
    && (forall u :: 0 <= u < |order| ==> Way(B, K, i, from) <= Way(B, K, i, order[u]))
    && forall u, v :: 0 <= u < v < |order| && order[v] == from ==> Way(B, K, i, from) < Way(B, K, i, order[u])
  }

  /** No row that is not in `order` can be made more cheaply in any way, and none before `row` as cheaply. */
  ghost predicate CheapestRow(B: seq<BitRow>, K: nat, order: seq<nat>, row: nat, from: int)
    requires BitMatrix(B, |B|, K) && InRange(B, order) && row < |B|
  {
    && -1 <= from < |B|
    && forall r: nat, f: int :: r < |B| && r !in order && (f == -1 || f in order) ==>
         Way(B, K, row, from) <= Way(B, K, r, f) && (r < row ==> Way(B, K, row, from) < Way(B, K, r, f))
  }

  /** A row is added: another start to consider. */
  lemma FirstCheapestStep(B: seq<BitRow>, K: nat, order: seq<nat>, row: nat, i: nat, from: int)
    requires BitMatrix(B, |B|, K) && InRange(B, order) && i < |B| && row < |B| && row !in order
    requires FirstCheapest(B, K, order, i, from)
    ensures FirstCheapest(B, K, order + [row], i, if Way(B, K, i, row) < Way(B, K, i, from) then row else from)
  {
    hide Way, BitMatrix;
    var o := order + [row];
    forall u | 0 <= u < |o| ensures o[u] == if u < |order| then order[u] else row {}
  }

  /** What a start gains: it is not a zero row, and it saves operations. */
  lemma StartGains(B: seq<BitRow>, K: nat, order: seq<nat>, i: nat, from: int)
    requires BitMatrix(B, |B|, K) && InRange(B, order) && i < |B| && FirstCheapest(B, K, order, i, from)
    ensures Way(B, K, i, from) <= Weight(B[i], K) <= K
    ensures from != -1 ==>
      from in order && 0 <= from < |B| && Weight(B[from], K) > 0 && 1 + Weight(RowXor(B[i], B[from]), K) < Weight(B[i], K)
  {
    WeightBound(B[i], K);
    if from != -1 {
      RowXorComm(B[i], B[from]);
      if Weight(B[from], K) == 0 { WeightXorZero(B[from], B[i], K); }
    }
  }

  // ----- the two arrays `from` and `diff`

  ghost predicate Plan(B: seq<BitRow>, K: nat, order: seq<nat>, i: nat, from: int, diff: int)
    requires BitMatrix(B, |B|, K) && InRange(B, order) && i < |B|
  {
    FirstCheapest(B, K, order, i, from) && diff == Way(B, K, i, from)
  }

  /** The plans of the listed rows from number `lo` up to `hi`. */
  ghost predicate Plans(B: seq<BitRow>, K: nat, order: seq<nat>, rem: seq<nat>, lo: nat, hi: nat, from: seq<int>, diff: seq<int>)
  {
    && BitMatrix(B, |B|, K) && InRange(B, order) && InRange(B, rem) && |from| == |diff| == |B| && hi <= |rem|
    && forall p :: lo <= p < hi ==> Plan(B, K, order, rem[p], from[rem[p]], diff[rem[p]])
  }

  ghost predicate Ascending(rem: seq<nat>) { forall p, q :: 0 <= p < q < |rem| ==> rem[p] < rem[q] }

  /** The first `q` listed rows have looked at the new row, the others have not. */
  ghost predicate Halfway(B: seq<BitRow>, K: nat, order: seq<nat>, row: nat, rem: seq<nat>, q: nat, from: seq<int>, diff: seq<int>) {
    Plans(B, K, order + [row], rem, 0, q, from, diff) && Plans(B, K, order, rem, q, |rem|, from, diff)
  }

  lemma NextPlan(B: seq<BitRow>, K: nat, order: seq<nat>, row: nat, rem: seq<nat>, q: nat, from: seq<int>, diff: seq<int>)
    requires Halfway(B, K, order, row, rem, q, from, diff) && q < |rem|
    ensures BitMatrix(B, |B|, K) && InRange(B, order) && rem[q] < |B| == |from| == |diff| && InRange(B, order + [row])
    ensures Plan(B, K, order, rem[q], from[rem[q]], diff[rem[q]])
  {
  }

  lemma HalfwayStep(B: seq<BitRow>, K: nat, order: seq<nat>, row: nat, rem: seq<nat>, q: nat, from: seq<int>, diff: seq<int>,
      from': seq<int>, diff': seq<int>)
    requires Halfway(B, K, order, row, rem, q, from, diff) && q < |rem| && Ascending(rem)
    requires |from'| == |diff'| == |B| && forall i :: 0 <= i < |B| && i != rem[q] ==> from'[i] == from[i] && diff'[i] == diff[i]
    requires BitMatrix(B, |B|, K) && InRange(B, order + [row]) && rem[q] < |B|
    requires Plan(B, K, order + [row], rem[q], from'[rem[q]], diff'[rem[q]])
    ensures Halfway(B, K, order, row, rem, q + 1, from', diff')
  {
    hide Plan, BitMatrix;
  }

  /** Plans for a shorter list. */
  lemma PlansWithout(B: seq<BitRow>, K: nat, order: seq<nat>, rem: seq<nat>, less: seq<nat>, from: seq<int>, diff: seq<int>)
    requires Plans(B, K, order, rem, 0, |rem|, from, diff) && forall q :: 0 <= q < |less| ==> less[q] in rem
    ensures Plans(B, K, order, less, 0, |less|, from, diff)
  {
    hide Plan, BitMatrix;
    forall q | 0 <= q < |less| ensures less[q] < |B| && Plan(B, K, order, less[q], from[less[q]], diff[less[q]]) {
      var p :| 0 <= p < |rem| && rem[p] == less[q];
    }
  }

  /** At the start every row is made from scratch. */
  lemma FirstPlans(B: seq<BitRow>, K: nat, rem: seq<nat>, from: seq<int>, diff: seq<int>)
    requires BitMatrix(B, |B|, K) && InRange(B, rem) && |from| == |diff| == |B|
    requires forall i: nat :: i < |B| ==> from[i] == -1 && diff[i] == Weight(B[i], K)
    ensures Plans(B, K, [], rem, 0, |rem|, from, diff)
  {
  }

  // ----- the choice of the next row

  /** The least `diff` among the first `q` listed rows is at `bestrow`, which is the first one to have it. */
  ghost predicate Best(diff: seq<int>, rem: seq<nat>, q: nat, bestrow: nat, bestdiff: int, limit: int) {
    && q <= |rem| && (forall p :: 0 <= p < |rem| ==> rem[p] < |diff|)
    && (forall p :: 0 <= p < q ==> bestdiff <= diff[rem[p]] && (rem[p] < bestrow ==> bestdiff < diff[rem[p]]))
    && (if q == 0 then bestdiff == limit else bestrow in rem[..q] && bestrow < |diff| && bestdiff == diff[bestrow])
  }

  lemma BestStep(diff: seq<int>, diff': seq<int>, rem: seq<nat>, q: nat, bestrow: nat, bestdiff: int, limit: int)
    requires Best(diff, rem, q, bestrow, bestdiff, limit) && q < |rem| && |diff'| == |diff| && Ascending(rem)
    requires forall i :: 0 <= i < |diff| && i != rem[q] ==> diff'[i] == diff[i]
    requires diff'[rem[q]] < limit
    ensures var d := diff'[rem[q]];
      if d < bestdiff then Best(diff', rem, q + 1, rem[q], d, limit) else Best(diff', rem, q + 1, bestrow, bestdiff, limit)
  {
    assert rem[..q + 1] == rem[..q] + [rem[q]];
    if q > 0 {
      var p :| 0 <= p < q && rem[p] == bestrow;
      assert diff'[bestrow] == diff[bestrow];
    }
  }

  /** The row chosen is the cheapest of all rows that are left. */
  lemma BestIsCheapest(B: seq<BitRow>, K: nat, order: seq<nat>, rem: seq<nat>, from: seq<int>, diff: seq<int>,
      bestrow: nat, bestdiff: int, limit: int)
    requires Plans(B, K, order, rem, 0, |rem|, from, diff) && Best(diff, rem, |rem|, bestrow, bestdiff, limit) && rem != []
    requires forall r: nat :: r < |B| && r !in order ==> r in rem
    ensures bestrow in rem && bestrow < |B| && Plan(B, K, order, bestrow, from[bestrow], diff[bestrow])
    ensures CheapestRow(B, K, order, bestrow, from[bestrow])
  {
    hide Way, BitMatrix;
    assert rem[..|rem|] == rem;
    forall r: nat, f: int | r < |B| && r !in order && (f == -1 || f in order)
      ensures diff[bestrow] <= Way(B, K, r, f) && (r < bestrow ==> diff[bestrow] < Way(B, K, r, f))
    {
      var p :| 0 <= p < |rem| && rem[p] == r;
      assert Plan(B, K, order, r, from[r], diff[r]);
      CheapestOf(B, K, order, r, from[r], f);
    }
    var p :| 0 <= p < |rem| && rem[p] == bestrow;
    assert Plan(B, K, order, rem[p], from[rem[p]], diff[rem[p]]);
  }

  lemma CheapestOf(B: seq<BitRow>, K: nat, order: seq<nat>, i: nat, from: int, f: int)
    requires BitMatrix(B, |B|, K) && InRange(B, order) && i < |B| && FirstCheapest(B, K, order, i, from)
    requires f == -1 || f in order
    ensures -1 <= from < |B| && -1 <= f < |B| && Way(B, K, i, from) <= Way(B, K, i, f)
  {
    hide Way, BitMatrix;
  }
}
