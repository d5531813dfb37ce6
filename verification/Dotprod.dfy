/** `jerasure_matrix_dotprod`: one device becomes a combination of others.  Coefficients equal to
    one are copied and added first, the remaining ones are multiplied in a second pass. */
module Dotprod {
  import opened Bits
  import opened Galois
  import opened LinearAlgebra
  import opened Devices

  /** The contents of the buffers. */
  ghost function View(dev: seq<array<nat>>): (D: seq<Row>)
    reads dev
    ensures |D| == |dev| && forall i :: 0 <= i < |dev| ==> D[i] == dev[i][..]
  {
    seq(|dev|, i requires 0 <= i < |dev| reads dev => dev[i][..])
  }

  /** The buffers are different arrays of the same length. */
  ghost predicate Buffers(dev: seq<array<nat>>, size: nat) {
    && (forall i :: 0 <= i < |dev| ==> dev[i].Length == size)
    && forall i, j :: 0 <= i < j < |dev| ==> dev[i] != dev[j]
  }

  // ----- word-level region operations

  method RegionCopy(dst: array<nat>, src: array<nat>)
    requires dst != src && dst.Length == src.Length
    modifies dst
    ensures dst[..] == src[..]
  {
    var p := 0;
    while p < dst.Length
      invariant 0 <= p <= dst.Length && dst[..p] == src[..p]
    {
      dst[p] := src[p];
      p := p + 1;
    }
  }

  method RegionXor(dst: array<nat>, src: array<nat>)
    requires dst != src && dst.Length == src.Length
    modifies dst
    ensures forall p :: 0 <= p < dst.Length ==> dst[p] == Xor(old(dst[p]), src[p])
  {
    var p := 0;
    while p < dst.Length
      invariant 0 <= p <= dst.Length
      invariant forall q :: 0 <= q < p ==> dst[q] == Xor(old(dst[q]), src[q])
      invariant forall q :: p <= q < dst.Length ==> dst[q] == old(dst[q])
    {
      dst[p] := Xor(src[p], dst[p]);
      XorComm(src[p], old(dst[p]));
      p := p + 1;
    }
  }

  /** The products of the words of `src` with `multby` overwrite or are added to `dst`. */
  method RegionMultiply(F: Field, dst: array<nat>, src: array<nat>, multby: nat, add: bool)
    requires F.w >= 1 && dst != src && dst.Length == src.Length
    modifies dst
    ensures forall p :: 0 <= p < dst.Length ==>
      dst[p] == if add then Xor(old(dst[p]), F.Mul(multby, src[p])) else F.Mul(multby, src[p])
  {
    var p := 0;
    while p < dst.Length
      invariant 0 <= p <= dst.Length
      invariant forall q :: 0 <= q < p ==>
        dst[q] == if add then Xor(old(dst[q]), F.Mul(multby, src[q])) else F.Mul(multby, src[q])
      invariant forall q :: p <= q < dst.Length ==> dst[q] == old(dst[q])
    {
      var prod := F.Mul(multby, src[p]);
      dst[p] := if add then Xor(dst[p], prod) else prod;
      p := p + 1;
    }
  }

  // ----- the two passes

  /** The terms with coefficient one among the first `n`. */
  ghost function OnesSum(F: Field, row: Row, x: Row, n: nat): nat
    requires F.w >= 1 && n <= |row| && n <= |x|
  {
    if n == 0 then 0
    else Xor(OnesSum(F, row, x, n - 1), if row[n - 1] == 1 then x[n - 1] else 0)
  }

  /** The terms with other non-zero coefficients among the first `n`. */
  ghost function RestSum(F: Field, row: Row, x: Row, n: nat): nat
    requires F.w >= 1 && n <= |row| && n <= |x|
  {
    if n == 0 then 0
    else Xor(RestSum(F, row, x, n - 1), if row[n - 1] == 0 || row[n - 1] == 1 then 0 else F.Mul(row[n - 1], x[n - 1]))
  }

  lemma {:induction false} PassesMakeDot(F: Field, row: Row, x: Row, n: nat)
    requires F.w >= 1 && n <= |row| && n <= |x|
    ensures Xor(OnesSum(F, row, x, n), RestSum(F, row, x, n)) == Dot(F, row, x, n)
  {
    if n > 0 {
      PassesMakeDot(F, row, x, n - 1);
      DotStep(F, row, x, n);
      var r, v := row[n - 1], x[n - 1];
      var a, b := if r == 1 then v else 0, if r == 0 || r == 1 then 0 else F.Mul(r, v);
      XorMedial(OnesSum(F, row, x, n - 1), a, RestSum(F, row, x, n - 1), b);
      MulOneLeft(F, v);
      MulZeroLeft(F, v);
      XorUnit(F.Mul(r, v));
    }
  }

  /** Some coefficient has been used: the destination has been written. */
  predicate Started(row: Row, i: nat, j: nat)
    requires i <= |row| && j <= |row|
  {
    (exists l :: 0 <= l < i && row[l] == 1) || (exists l :: 0 <= l < j && row[l] != 0 && row[l] != 1)
  }

  /** The destination after `i` steps of the first pass and `j` steps of the second. */
  ghost predicate Progress(F: Field, row: Row, D: seq<Row>, ids: seq<nat>, before: Row, now: Row, i: nat, j: nat)
    requires F.w >= 1 && |row| == |ids| && i <= |row| && j <= |row| && |before| == |now| && Sources(D, ids, |now|)
  {
    if Started(row, i, j) then
      forall p: nat :: p < |now| ==>
        now[p] == Xor(OnesSum(F, row, Column(D, ids, p), i), RestSum(F, row, Column(D, ids, p), j))
    else now == before
  }

  lemma {:induction false} NothingSummed(F: Field, row: Row, x: Row, i: nat, j: nat)
    requires F.w >= 1 && i <= |row| && j <= |row| && |row| <= |x| && !Started(row, i, j)
    ensures OnesSum(F, row, x, i) == 0 && RestSum(F, row, x, j) == 0
    decreases i + j
  {
    XorUnit(0);
    if i > 0 { NothingSummed(F, row, x, i - 1, j); }
    else if j > 0 { NothingSummed(F, row, x, i, j - 1); }
  }

  /** A coefficient one: copy or add the source. */
  lemma OnesStep(F: Field, row: Row, D: seq<Row>, ids: seq<nat>, before: Row, now: Row, next: Row, i: nat)
    requires F.w >= 1 && |row| == |ids| && i < |row| && |before| == |now| == |next| && Sources(D, ids, |now|)
    requires Progress(F, row, D, ids, before, now, i, 0) && row[i] == 1
    requires forall p: nat :: p < |now| ==>
      next[p] == if Started(row, i, 0) then Xor(now[p], D[ids[i]][p]) else D[ids[i]][p]
    ensures Progress(F, row, D, ids, before, next, i + 1, 0)
  {
    assert Started(row, i + 1, 0);
    forall p: nat | p < |now|
      ensures next[p] == Xor(OnesSum(F, row, Column(D, ids, p), i + 1), RestSum(F, row, Column(D, ids, p), 0))
    {
      var x := Column(D, ids, p);
      XorUnit(OnesSum(F, row, x, i));
      XorUnit(OnesSum(F, row, x, i + 1));
      XorUnit(x[i]);
      if !Started(row, i, 0) { NothingSummed(F, row, x, i, 0); }
    }
  }

  lemma OnesSkip(F: Field, row: Row, D: seq<Row>, ids: seq<nat>, before: Row, now: Row, i: nat)
    requires F.w >= 1 && |row| == |ids| && i < |row| && |before| == |now| && Sources(D, ids, |now|)
    requires Progress(F, row, D, ids, before, now, i, 0) && row[i] != 1
    ensures Progress(F, row, D, ids, before, now, i + 1, 0) && Started(row, i + 1, 0) == Started(row, i, 0)
  {
    assert Started(row, i + 1, 0) == Started(row, i, 0);
    forall p: nat | p < |now|
      ensures OnesSum(F, row, Column(D, ids, p), i + 1) == OnesSum(F, row, Column(D, ids, p), i)
    {
      XorUnit(OnesSum(F, row, Column(D, ids, p), i));
    }
  }

  /** Any other non-zero coefficient: multiply the source. */
  lemma RestStep(F: Field, row: Row, D: seq<Row>, ids: seq<nat>, before: Row, now: Row, next: Row, j: nat)
    requires F.w >= 1 && |row| == |ids| && j < |row| && |before| == |now| == |next| && Sources(D, ids, |now|)
    requires Progress(F, row, D, ids, before, now, |row|, j) && row[j] != 0 && row[j] != 1
    requires forall p: nat :: p < |now| ==>
      next[p] == if Started(row, |row|, j) then Xor(now[p], F.Mul(row[j], D[ids[j]][p])) else F.Mul(row[j], D[ids[j]][p])
    ensures Progress(F, row, D, ids, before, next, |row|, j + 1)
  {
    assert Started(row, |row|, j + 1);
    forall p: nat | p < |now|
      ensures next[p] == Xor(OnesSum(F, row, Column(D, ids, p), |row|), RestSum(F, row, Column(D, ids, p), j + 1))
    {
      var x := Column(D, ids, p);
      var a, b, t := OnesSum(F, row, x, |row|), RestSum(F, row, x, j), F.Mul(row[j], x[j]);
      XorAssoc(a, b, t);
      XorUnit(t);
      if !Started(row, |row|, j) { NothingSummed(F, row, x, |row|, j); }
    }
  }

  lemma RestSkip(F: Field, row: Row, D: seq<Row>, ids: seq<nat>, before: Row, now: Row, j: nat)
    requires F.w >= 1 && |row| == |ids| && j < |row| && |before| == |now| && Sources(D, ids, |now|)
    requires Progress(F, row, D, ids, before, now, |row|, j) && (row[j] == 0 || row[j] == 1)
    ensures Progress(F, row, D, ids, before, now, |row|, j + 1) && Started(row, |row|, j + 1) == Started(row, |row|, j)
  {
    assert Started(row, |row|, j + 1) == Started(row, |row|, j);
    forall p: nat | p < |now|
      ensures RestSum(F, row, Column(D, ids, p), j + 1) == RestSum(F, row, Column(D, ids, p), j)
    {
      XorUnit(RestSum(F, row, Column(D, ids, p), j));
    }
  }

  lemma Finished(F: Field, row: Row, D: seq<Row>, ids: seq<nat>, before: Row, now: Row)
    requires F.w >= 1 && |row| == |ids| && |before| == |now| && Sources(D, ids, |now|)
    requires Progress(F, row, D, ids, before, now, |row|, |row|)
    ensures now == if HasNonzero(row) then Combine(F, row, D, ids, |now|) else before
  {
    assert HasNonzero(row) == Started(row, |row|, |row|);
    forall p: nat | p < |now|
      ensures Xor(OnesSum(F, row, Column(D, ids, p), |row|), RestSum(F, row, Column(D, ids, p), |row|))
           == Dot(F, row, Column(D, ids, p), |row|)
    {
      PassesMakeDot(F, row, Column(D, ids, p), |row|);
    }
  }

  // ----- the routine

  /** The source list, or the data devices when none is given. */
  ghost function SourceIds(srcIds: array?<nat>, k: nat): seq<nat>
    requires srcIds != null ==> srcIds.Length == k
    reads srcIds
  {
    if srcIds == null then DataIds(k) else srcIds[..]
  }

  /** `sptr` for source number `i`. */
  function SourceOf(dev: seq<array<nat>>, srcIds: array?<nat>, k: nat, i: nat): (src: array<nat>)
    requires srcIds != null ==> srcIds.Length == k
    requires i < k && SourceIds(srcIds, k)[i] < |dev|
    reads srcIds
    ensures src == dev[SourceIds(srcIds, k)[i]]
  {
    if srcIds == null then dev[i] else dev[srcIds[i]]
  }

  ghost predicate Callable(k: nat, matrix: array<nat>, base: nat, srcIds: array?<nat>, dest: nat, dev: seq<array<nat>>, size: nat)
    reads srcIds
  {
    && Buffers(dev, size) && dest < |dev| && base + k <= matrix.Length && matrix !in dev
    && (srcIds != null ==> srcIds.Length == k && srcIds !in dev)
    && forall i :: 0 <= i < k ==> SourceIds(srcIds, k)[i] < |dev| && SourceIds(srcIds, k)[i] != dest
  }

  /** `memcpy` or `galois_region_xor` into device `dest`. */
  method CopyOrAdd(dev: seq<array<nat>>, dest: nat, ghost src: nat, sptr: array<nat>, init: bool, size: nat)
    requires Buffers(dev, size) && dest < |dev| && src < |dev| && src != dest && sptr == dev[src]
    modifies dev[dest]
    ensures var D, next := old(View(dev)), dev[dest][..];
      && View(dev) == D[dest := next] && |next| == |D[dest]| == |D[src]| == size
      && forall p: nat :: p < size ==> next[p] == if init then Xor(D[dest][p], D[src][p]) else D[src][p]
  {
    if !init {
      RegionCopy(dev[dest], sptr);
    } else {
      RegionXor(dev[dest], sptr);
    }
  }

  /** The region multiply for device `dest`. */
  method MultiplyInto(F: Field, dev: seq<array<nat>>, dest: nat, ghost src: nat, sptr: array<nat>, multby: nat, init: bool, size: nat)
    requires F.w >= 1 && Buffers(dev, size) && dest < |dev| && src < |dev| && src != dest && sptr == dev[src]
    modifies dev[dest]
    ensures var D, next := old(View(dev)), dev[dest][..];
      && View(dev) == D[dest := next] && |next| == |D[dest]| == |D[src]| == size
      && forall p: nat :: p < size ==>
           next[p] == if init then Xor(D[dest][p], F.Mul(multby, D[src][p])) else F.Mul(multby, D[src][p])
  {
    RegionMultiply(F, dev[dest], sptr, multby, init);
  }

  /** First copy or add the sources that need not be multiplied. */
  method AddOnes(F: Field, k: nat, matrix: array<nat>, base: nat, srcIds: array?<nat>, dest: nat,
                 dev: seq<array<nat>>, size: nat, ghost D: seq<Row>) returns (init: bool)
    requires F.w >= 1 && Callable(k, matrix, base, srcIds, dest, dev, size) && D == View(dev)
    modifies dev[dest]
    ensures init == Started(matrix[base..base + k], k, 0)
    ensures View(dev) == D[dest := dev[dest][..]]
    ensures Progress(F, matrix[base..base + k], D, SourceIds(srcIds, k), D[dest], dev[dest][..], k, 0)
  {
    hide Started, Progress, Xor, OnesSum, RestSum, Column, View;
    ghost var row, ids := matrix[base..base + k], SourceIds(srcIds, k);
    init := false;
    StartProgress(F, row, D, ids, D[dest]);
    var i: nat := 0;
    while i < k
      invariant i <= k && init == Started(row, i, 0)
      invariant View(dev) == D[dest := dev[dest][..]]
      invariant Progress(F, row, D, ids, D[dest], dev[dest][..], i, 0)
    {
      ghost var now := dev[dest][..];
      if matrix[base + i] == 1 {
        CopyOrAdd(dev, dest, ids[i], SourceOf(dev, srcIds, k, i), init, size);
        OnesStep(F, row, D, ids, D[dest], now, dev[dest][..], i);
        StartedByOne(row, i);
        init := true;
      } else {
        OnesSkip(F, row, D, ids, D[dest], now, i);
      }
      i := i + 1;
    }
  }

  lemma StartProgress(F: Field, row: Row, D: seq<Row>, ids: seq<nat>, before: Row)
    requires F.w >= 1 && |row| == |ids| && Sources(D, ids, |before|)
    ensures !Started(row, 0, 0) && Progress(F, row, D, ids, before, before, 0, 0)
  {
  }

  lemma StartedByOne(row: Row, i: nat)
    requires i < |row| && row[i] == 1
    ensures Started(row, i + 1, 0)
  {
  }

  lemma StartedByOther(row: Row, j: nat)
    requires j < |row| && row[j] != 0 && row[j] != 1
    ensures Started(row, |row|, j + 1)
  {
  }

  /** Then multiply the others. */
  method AddMultiples(F: Field, k: nat, matrix: array<nat>, base: nat, srcIds: array?<nat>, dest: nat,
                      dev: seq<array<nat>>, size: nat, init0: bool, ghost D: seq<Row>)
    requires F.w >= 1 && Callable(k, matrix, base, srcIds, dest, dev, size)
    requires |D| == |dev| && |D[dest]| == size && View(dev) == D[dest := dev[dest][..]] && Sources(D, SourceIds(srcIds, k), size)
    requires init0 == Started(matrix[base..base + k], k, 0)
    requires Progress(F, matrix[base..base + k], D, SourceIds(srcIds, k), D[dest], dev[dest][..], k, 0)
    modifies dev[dest]
    ensures View(dev) == D[dest := dev[dest][..]]
    ensures Progress(F, matrix[base..base + k], D, SourceIds(srcIds, k), D[dest], dev[dest][..], k, k)
  {
    hide Started, Progress, Xor, OnesSum, RestSum, Column, View;
    ghost var row, ids := matrix[base..base + k], SourceIds(srcIds, k);
    var init := init0;
    var i: nat := 0;
    while i < k
      invariant i <= k && init == Started(row, k, i)
      invariant View(dev) == D[dest := dev[dest][..]]
      invariant Progress(F, row, D, ids, D[dest], dev[dest][..], k, i)
    {
      ghost var now := dev[dest][..];
      if matrix[base + i] != 0 && matrix[base + i] != 1 {
        MultiplyInto(F, dev, dest, ids[i], SourceOf(dev, srcIds, k, i), matrix[base + i], init, size);
        RestStep(F, row, D, ids, D[dest], now, dev[dest][..], i);
        StartedByOther(row, i);
        init := true;
      } else {
        RestSkip(F, row, D, ids, D[dest], now, i);
      }
      i := i + 1;
    }
  }

  method MatrixDotprod(F: Field, k: nat, matrix: array<nat>, base: nat, srcIds: array?<nat>, dest: nat,
                       dev: seq<array<nat>>, size: nat)
    requires F.w >= 1 && Callable(k, matrix, base, srcIds, dest, dev, size)
    modifies dev[dest]
    ensures var row, D := matrix[base..base + k], old(View(dev));
      && Sources(D, SourceIds(srcIds, k), size)
      && View(dev) == if HasNonzero(row) then D[dest := Combine(F, row, D, SourceIds(srcIds, k), size)] else D
  {
    ghost var D := View(dev);
    var init := AddOnes(F, k, matrix, base, srcIds, dest, dev, size, D);
    AddMultiples(F, k, matrix, base, srcIds, dest, dev, size, init, D);
    Finished(F, matrix[base..base + k], D, SourceIds(srcIds, k), D[dest], dev[dest][..]);
  }
}
