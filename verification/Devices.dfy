/** The contents of the k + m devices, and what encoding and decoding mean for them. */
module Devices {
  import opened Bits
  import opened Galois
  import opened LinearAlgebra
  import opened Elimination
  import opened Survivors

  /** Device contents: one row of words per device. */
  ghost predicate Contents(F: Field, D: seq<Row>, n: nat, size: nat) { Matrix(F, D, n, size) }

  /** Word `p` of the listed devices. */
  ghost function Column(D: seq<Row>, ids: seq<nat>, p: nat): (x: Row)
    requires forall i :: 0 <= i < |ids| ==> ids[i] < |D| && p < |D[ids[i]]|
    ensures |x| == |ids| && forall i :: 0 <= i < |ids| ==> x[i] == D[ids[i]][p]
  {
    seq(|ids|, i requires 0 <= i < |ids| => D[ids[i]][p])
  }

  ghost predicate Sources(D: seq<Row>, ids: seq<nat>, size: nat) {
    forall i :: 0 <= i < |ids| ==> ids[i] < |D| && |D[ids[i]]| == size
  }

  /** The sum of the listed devices, each multiplied by its coefficient, word by word. */
  ghost function Combine(F: Field, row: Row, D: seq<Row>, ids: seq<nat>, size: nat): (out: Row)
    requires F.w >= 1 && |row| == |ids| && Sources(D, ids, size)
    ensures |out| == size
    ensures forall p: nat :: p < size ==> out[p] == Dot(F, row, Column(D, ids, p), |ids|)
  {
    seq(size, p requires 0 <= p < size => Dot(F, row, Column(D, ids, p), |ids|))
  }

  /** 0 .. k-1: the data devices, which a missing list of sources stands for. */
  function DataIds(k: nat): (ids: seq<nat>)
    ensures |ids| == k && forall i :: 0 <= i < k ==> ids[i] == i
  {
    seq(k, i => i)
  }

  /** Every coding device holds its combination of the data devices. */
  ghost predicate Codeword(F: Field, C: seq<Row>, k: nat, m: nat, D: seq<Row>, size: nat)
    requires F.w >= 1 && Matrix(F, C, m, k)
  {
    && Contents(F, D, k + m, size)
    && forall i: nat :: i < m ==> |C[i]| == k && D[k + i] == Combine(F, C[i], D, DataIds(k), size)
  }

  lemma ContentsSources(F: Field, D: seq<Row>, n: nat, size: nat, ids: seq<nat>)
    requires Contents(F, D, n, size) && forall i :: 0 <= i < |ids| ==> ids[i] < n
    ensures Sources(D, ids, size)
    ensures forall p: nat :: p < size ==> Vec(F, Column(D, ids, p), |ids|)
  {
    forall i | 0 <= i < |ids| ensures Vec(F, D[ids[i]], size) { }
  }

  /** The survivors' words are the survivor matrix applied to the data words. */
  lemma SurvivorWords(F: Field, C: seq<Row>, k: nat, m: nat, D: seq<Row>, size: nat, ids: seq<nat>, p: nat)
    requires F.w >= 1 && Matrix(F, C, m, k) && Codeword(F, C, k, m, D, size) && p < size
    requires forall i :: 0 <= i < |ids| ==> ids[i] < k + m
    ensures Sources(D, ids, size) && Sources(D, DataIds(k), size)
    ensures var x := Column(D, DataIds(k), p); var S := SurvivorMatrix(C, k, ids);
      Vec(F, x, k) && Matrix(F, S, |ids|, k) && Column(D, ids, p) == Apply(F, S, x)
  {
    ContentsSources(F, D, k + m, size, ids);
    ContentsSources(F, D, k + m, size, DataIds(k));
    SurvivorMatrixElements(F, C, k, m, ids);
    var x, S := Column(D, DataIds(k), p), SurvivorMatrix(C, k, ids);
    forall i | 0 <= i < |ids| ensures D[ids[i]][p] == Dot(F, S[i], x, k) {
      if ids[i] < k {
        DotUnit(F, S[i], x, ids[i], k);
      } else {
        assert D[k + (ids[i] - k)] == Combine(F, C[ids[i] - k], D, DataIds(k), size);
      }
    }
  }

  /** A row of the inverse, applied to the survivors, gives back a data device. */
  lemma RowDecodes(F: Field, C: seq<Row>, k: nat, m: nat, D: seq<Row>, size: nat, ids: seq<nat>, inv: seq<Row>, d: nat)
    requires F.w >= 1 && Matrix(F, C, m, k) && Codeword(F, C, k, m, D, size) && d < k
    requires |ids| == k && forall i :: 0 <= i < k ==> ids[i] < k + m
    requires Matrix(F, inv, k, k) && Matrix(F, SurvivorMatrix(C, k, ids), k, k)
    requires LeftInverse(F, inv, SurvivorMatrix(C, k, ids), k)
    ensures Sources(D, ids, size) && |inv[d]| == k && |D| == k + m && D[d] == Combine(F, inv[d], D, ids, size)
  {
    hide Dot, Field.Mul, Xor, SurvivorMatrix;
    ContentsSources(F, D, k + m, size, ids);
    assert Vec(F, inv[d], k) && Vec(F, D[d], size);
    forall p: nat | p < size ensures D[d][p] == Dot(F, inv[d], Column(D, ids, p), k) {
      SurvivorWords(F, C, k, m, D, size, ids, p);
      var x, S := Column(D, DataIds(k), p), SurvivorMatrix(C, k, ids);
      ApplyVec(F, S, x);
      assert Apply(F, inv, Apply(F, S, x)) == x;
    }
  }

  predicate HasNonzero(row: Row) { exists j :: 0 <= j < |row| && row[j] != 0 }

  /** No row of an inverse is zero. */
  lemma InverseRowNonzero(F: Field, inv: seq<Row>, S: seq<Row>, k: nat, d: nat)
    requires F.w >= 1 && Matrix(F, inv, k, k) && Matrix(F, S, k, k) && LeftInverse(F, inv, S, k) && d < k
    ensures HasNonzero(inv[d])
  {
    var x := UnitRow(k, d);
    OneEl(F);
    assert Vec(F, x, k) && Vec(F, inv[d], k);
    ApplyVec(F, S, x);
    assert Dot(F, inv[d], Apply(F, S, x), k) == 1 by { assert Apply(F, inv, Apply(F, S, x)) == x; }
    if !HasNonzero(inv[d]) { DotZero(F, inv[d], Apply(F, S, x), k); }
  }

  // ----- the all-ones parity row

  predicate AllOnesRow(row: Row) { forall j :: 0 <= j < |row| ==> row[j] == 1 }

  /** 0 .. k with the device `last` left out: the other data devices and the first coding device. */
  function SkipIds(k: nat, last: nat): (ids: seq<nat>)
    ensures |ids| == k && forall i :: 0 <= i < k ==> ids[i] == if i < last then i else i + 1
  {
    seq(k, i => if i < last then i else i + 1)
  }

  lemma {:induction false} SumSkips(F: Field, ones: Row, x: Row, y: Row, last: nat, n: nat)
    requires F.w >= 1 && AllOnesRow(ones) && last < n <= |ones| && n <= |x| && n - 1 <= |y|
    requires forall i :: 0 <= i < last ==> y[i] == x[i]
    requires forall i :: last <= i < n - 1 ==> y[i] == x[i + 1]
    ensures Dot(F, ones, x, n) == Xor(Dot(F, ones, y, n - 1), x[last])
    decreases n
  {
    DotStep(F, ones, x, n);
    MulOneLeft(F, x[n - 1]);
    if last == n - 1 {
      DotSame(F, ones, ones, x, y, n - 1);
    } else {
      assert y[n - 2] == x[n - 1];
      SumSkips(F, ones, x, y, last, n - 1);
      DotStep(F, ones, y, n - 1);
      var d := Dot(F, ones, y, n - 2);
      XorAssoc(d, x[last], x[n - 1]);
      XorComm(x[last], x[n - 1]);
      XorAssoc(d, x[n - 1], x[last]);
    }
  }

  /** The last lost data device is the sum of all other data devices and the first coding device. */
  lemma ParityDecodes(F: Field, C: seq<Row>, k: nat, m: nat, D: seq<Row>, size: nat, last: nat)
    requires F.w >= 1 && Matrix(F, C, m, k) && Codeword(F, C, k, m, D, size) && last < k && m >= 1
    requires AllOnesRow(C[0])
    ensures Sources(D, SkipIds(k, last), size) && |C[0]| == k && |D| == k + m
    ensures D[last] == Combine(F, C[0], D, SkipIds(k, last), size)
  {
    ContentsSources(F, D, k + m, size, SkipIds(k, last));
    ContentsSources(F, D, k + m, size, DataIds(k));
    assert Vec(F, C[0], k) && Vec(F, D[last], size) && D[k + 0] == Combine(F, C[0], D, DataIds(k), size);
    forall p: nat | p < size ensures D[last][p] == Dot(F, C[0], Column(D, SkipIds(k, last), p), k) {
      var x, y := Column(D, DataIds(k), p), Column(D, SkipIds(k, last), p);
      SumSkips(F, C[0], x, y, last, k);
      DotStep(F, C[0], y, k);
      MulOneLeft(F, y[k - 1]);
      XorCancel(Dot(F, C[0], y, k - 1), x[last]);
      assert y[k - 1] == D[k][p];
    }
  }
}
