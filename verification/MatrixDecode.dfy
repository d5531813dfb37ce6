/** `jerasure_matrix_encode` and `jerasure_matrix_decode` over GF(2^w): after the loss of any
    devices, a decode that returns 0 has restored every one of them. */
module MatrixDecode {
  import opened Bits
  import opened Galois
  import opened LinearAlgebra
  import opened RowMajor
  import opened Elimination
  import opened Survivors
  import opened Devices
  import opened Dotprod
  import opened Erasures
  import opened DecodingMatrix

  /** The word sizes that the region operations support. */
  predicate WordSize(w: nat) { w == 8 || w == 16 || w == 32 }

  /** What encode expects of its arguments. */
  ghost predicate Encodable(F: Field, k: nat, m: nat, matrix: array<nat>, dev: seq<array<nat>>, size: nat) {
    F.w >= 1 && matrix.Length == Base(m, k) && |dev| == k + m && Buffers(dev, size) && matrix !in dev
  }

  /** What decode expects of its arguments. */
  ghost predicate Setup(F: Field, k: nat, m: nat, matrix: array<nat>, dev: seq<array<nat>>, size: nat)
    reads matrix
  {
    && IsField(F) && m >= 1 && matrix.Length == Base(m, k) && Matrix(F, Rows(matrix[..], m, k), m, k)
    && |dev| == k + m && Buffers(dev, size) && matrix !in dev
  }

  /** The devices after row `i` of the coding matrix was applied to the data devices: a row of zeros
      leaves device `k + i` as it was. */
  ghost function WithRow(F: Field, row: Row, k: nat, i: nat, D: seq<Row>, size: nat): (E: seq<Row>)
    requires F.w >= 1 && |row| == k && k + i < |D| && Sources(D, DataIds(k), size)
    ensures |E| == |D| && forall d: nat :: d < |D| && d != k + i ==> E[d] == D[d]
  {
    if HasNonzero(row) then D[k + i := Combine(F, row, D, DataIds(k), size)] else D
  }

  method EncodeDevice(F: Field, k: nat, m: nat, matrix: array<nat>, dev: seq<array<nat>>, size: nat, i: nat)
    requires Encodable(F, k, m, matrix, dev, size) && i < m
    modifies dev[k + i]
    ensures var D := old(View(dev)); var row := Rows(matrix[..], m, k)[i];
      Sources(D, DataIds(k), size) && |row| == k && View(dev) == WithRow(F, row, k, i, D, size)
  {
    hide Base, Dot, Field.Mul, Xor, Combine;
    BaseBefore(i, m, k);
    assert RowOf(matrix[..], m, k, i) == Rows(matrix[..], m, k)[i];
    MatrixDotprod(F, k, matrix, Base(i, k), null, k + i, dev, size);
  }

  lemma CombineSame(F: Field, row: Row, D: seq<Row>, E: seq<Row>, ids: seq<nat>, size: nat)
    requires F.w >= 1 && |row| == |ids| && Sources(D, ids, size) && Sources(E, ids, size)
    requires forall i :: 0 <= i < |ids| ==> D[ids[i]] == E[ids[i]]
    ensures Combine(F, row, D, ids, size) == Combine(F, row, E, ids, size)
  {
    forall p: nat | p < size ensures Column(D, ids, p) == Column(E, ids, p) { }
  }

  /** `E` is `D` encoded up to row `n`. */
  ghost predicate EncodedTo(F: Field, C: seq<Row>, k: nat, m: nat, D: seq<Row>, E: seq<Row>, n: nat, size: nat) {
    && F.w >= 1 && |C| == m && |D| == |E| == k + m && n <= m && Sources(D, DataIds(k), size)
    && (forall r :: 0 <= r < m ==> |C[r]| == k)
    && (forall d: nat :: d < k || k + n <= d < k + m ==> E[d] == D[d])
    && forall r: nat :: r < n ==> E[k + r] == WithRow(F, C[r], k, r, D, size)[k + r]
  }

  lemma EncodedNone(F: Field, k: nat, m: nat, matrix: array<nat>, dev: seq<array<nat>>, size: nat)
    requires Encodable(F, k, m, matrix, dev, size)
    ensures EncodedTo(F, Rows(matrix[..], m, k), k, m, View(dev), View(dev), 0, size)
  {
    hide Base;
    forall r: nat | r < m ensures |Rows(matrix[..], m, k)[r]| == k {
      BaseBefore(r, m, k);
      assert RowOf(matrix[..], m, k, r) == Rows(matrix[..], m, k)[r];
    }
  }

  lemma EncodedNext(F: Field, C: seq<Row>, k: nat, m: nat, D: seq<Row>, E: seq<Row>, n: nat, size: nat)
    requires EncodedTo(F, C, k, m, D, E, n, size) && n < m
    ensures |C[n]| == k && k + n < |E| && Sources(E, DataIds(k), size)
    ensures EncodedTo(F, C, k, m, D, WithRow(F, C[n], k, n, E, size), n + 1, size)
  {
    CombineSame(F, C[n], D, E, DataIds(k), size);
    hide Combine, HasNonzero;
  }

  /** `jerasure_matrix_encode`: every coding device becomes its combination of the data devices; those
      with a row of zeros, and the data devices, stay as they are. */
  method MatrixEncode(F: Field, k: nat, m: nat, matrix: array<nat>, dev: seq<array<nat>>, size: nat)
    requires Encodable(F, k, m, matrix, dev, size) && WordSize(F.w)
    modifies dev
    ensures matrix[..] == old(matrix[..])
    ensures EncodedTo(F, Rows(matrix[..], m, k), k, m, old(View(dev)), View(dev), m, size)
  {
    hide *;
    EncodableFacts(F, k, m, matrix, dev, size);
    ghost var D, C := View(dev), Rows(matrix[..], m, k);
    EncodedNone(F, k, m, matrix, dev, size);
    var i: nat := 0;
    while i < m
      invariant i <= m && matrix[..] == old(matrix[..])
      invariant EncodedTo(F, C, k, m, D, View(dev), i, size)
    {
      EncodedNext(F, C, k, m, D, View(dev), i, size);
      EncodeDevice(F, k, m, matrix, dev, size, i);
      i := i + 1;
    }
  }

  lemma EncodableFacts(F: Field, k: nat, m: nat, matrix: array<nat>, dev: seq<array<nat>>, size: nat)
    requires Encodable(F, k, m, matrix, dev, size)
    ensures F.w >= 1 && |dev| == k + m && matrix.Length == Base(m, k) && matrix !in dev && |Rows(matrix[..], m, k)| == m
  {
  }

  /** Encoding makes a codeword exactly when the devices whose row is zero were zero before. */
  lemma EncodedIsCodeword(F: Field, C: seq<Row>, k: nat, m: nat, D: seq<Row>, E: seq<Row>, size: nat)
    requires F.w >= 1 && Matrix(F, C, m, k) && Contents(F, D, k + m, size) && EncodedTo(F, C, k, m, D, E, m, size)
    ensures Codeword(F, C, k, m, E, size) <==> forall r :: 0 <= r < m && !HasNonzero(C[r]) ==> IsZero(D[k + r])
  {
    hide Combine, HasNonzero, IsZero, Dot;
    EncodedContents(F, C, k, m, D, E, size);
    ContentsSources(F, E, k + m, size, DataIds(k));
    forall r: nat | r < m
      ensures E[k + r] == Combine(F, C[r], E, DataIds(k), size) <==> (HasNonzero(C[r]) || IsZero(D[k + r]))
    {
      assert Vec(F, C[r], k);
      CombineSame(F, C[r], D, E, DataIds(k), size);
      assert E[k + r] == WithRow(F, C[r], k, r, D, size)[k + r];
      if !HasNonzero(C[r]) {
        assert Vec(F, D[k + r], size);
        ZeroRowCombines(F, C[r], E, DataIds(k), size, D[k + r]);
      }
    }
  }

  predicate IsZero(row: Row) { forall p :: 0 <= p < |row| ==> row[p] == 0 }

  lemma ZeroRowCombines(F: Field, row: Row, D: seq<Row>, ids: seq<nat>, size: nat, out: Row)
    requires F.w >= 1 && |row| == |ids| && Sources(D, ids, size) && !HasNonzero(row) && |out| == size
    ensures out == Combine(F, row, D, ids, size) <==> IsZero(out)
  {
    forall p: nat | p < size ensures Combine(F, row, D, ids, size)[p] == 0 { DotZeroRow(F, row, Column(D, ids, p), |ids|); }
  }

  lemma {:induction false} DotZeroRow(F: Field, row: Row, x: Row, n: nat)
    requires F.w >= 1 && n <= |row| && n <= |x| && !HasNonzero(row)
    ensures Dot(F, row, x, n) == 0
  {
    if n > 0 {
      DotZeroRow(F, row, x, n - 1);
      DotStep(F, row, x, n);
      assert row[n - 1] == 0;
      MulZeroLeft(F, x[n - 1]);
    }
  }

  lemma EncodedContents(F: Field, C: seq<Row>, k: nat, m: nat, D: seq<Row>, E: seq<Row>, size: nat)
    requires F.w >= 1 && Contents(F, D, k + m, size) && EncodedTo(F, C, k, m, D, E, m, size)
    ensures Contents(F, E, k + m, size)
  {
    hide Combine, HasNonzero;
    ContentsSources(F, D, k + m, size, DataIds(k));
    forall d | 0 <= d < k + m ensures Vec(F, E[d], size) {
      assert Vec(F, D[d], size);
      if d >= k {
        var r: nat := d - k;
        assert E[k + r] == WithRow(F, C[r], k, r, D, size)[k + r];
        CombineElements(F, C[r], D, DataIds(k), size);
      }
    }
  }

  lemma CombineElements(F: Field, row: Row, D: seq<Row>, ids: seq<nat>, size: nat)
    requires F.w >= 1 && |row| == |ids| && Sources(D, ids, size)
    requires forall p: nat :: p < size ==> Elements(F, Column(D, ids, p))
    ensures Vec(F, Combine(F, row, D, ids, size), size)
  {
    forall p | 0 <= p < size ensures F.El(Combine(F, row, D, ids, size)[p]) {
      DotEl(F, row, Column(D, ids, p), |ids|);
    }
  }

  // ----- decoding

  /** The devices below `i`, and all that were never lost, hold their original contents. */
  ghost predicate Restored(orig: seq<Row>, D: seq<Row>, erased: seq<bool>, i: nat) {
    && |D| == |orig| == |erased|
    && forall d: nat :: d < |D| && (d < i || !erased[d]) ==> D[d] == orig[d]
  }

  /** The number of erased devices below `i`. */
  ghost function ErasedBelow(erased: seq<bool>, i: nat): nat
    requires i <= |erased|
  {
    if i == 0 then 0 else ErasedBelow(erased, i - 1) + if erased[i - 1] then 1 else 0
  }

  lemma {:induction false} ErasedBetween(erased: seq<bool>, i: nat, j: nat)
    requires i <= j <= |erased|
    ensures ErasedBelow(erased, i) <= ErasedBelow(erased, j)
    ensures ErasedBelow(erased, i) == ErasedBelow(erased, j) <==> forall d: nat :: i <= d < j ==> !erased[d]
  {
    if i < j { ErasedBetween(erased, i, j - 1); }
  }

  /** The last erased data device, or `k` when the parity row cannot be used for it. */
  ghost predicate StopsAt(erased: seq<bool>, k: nat, rowKOnes: bool, last: nat)
    requires k < |erased|
  {
    if !rowKOnes || erased[k] then last == k
    else (last < k ==> erased[last]) && last <= k && forall d: nat :: d < k && erased[d] ==> d <= last < k
  }

  method CountErased(k: nat, erased: array<bool>, rowKOnes: bool) returns (edd: nat, lastdrive: nat)
    requires k < erased.Length
    ensures edd == ErasedBelow(erased[..], k) && StopsAt(erased[..], k, rowKOnes, lastdrive)
  {
    lastdrive := k;
    edd := 0;
    var i: nat := 0;
    while i < k
      invariant i <= k && edd == ErasedBelow(erased[..], i)
      invariant lastdrive == k || (lastdrive < i && erased[lastdrive])
      invariant forall d: nat :: d < i && erased[d] ==> d <= lastdrive < k
    {
      if erased[i] {
        edd := edd + 1;
        lastdrive := i;
      }
      i := i + 1;
    }
    if !rowKOnes || erased[k] { lastdrive := k; }
  }

  /** The decoding matrix is needed. */
  predicate NeedsMatrix(edd: nat, rowKOnes: bool, erasedK: bool) {
    edd > 1 || (edd > 0 && (!rowKOnes || erasedK))
  }

  /** Writing a correct device extends the restored ones. */
  lemma RestoreOne(orig: seq<Row>, D: seq<Row>, erased: seq<bool>, i: nat, out: Row)
    requires Restored(orig, D, erased, i) && i < |D| && (erased[i] ==> out == orig[i])
    ensures erased[i] ==> Restored(orig, D[i := out], erased, i + 1)
    ensures !erased[i] ==> Restored(orig, D, erased, i + 1)
  {
  }

  /** The decoding matrix and the survivor list are ready for use. */
  ghost predicate Prepared(F: Field, k: nat, m: nat, matrix: array<nat>, erased: seq<bool>,
                           decoding: array<nat>, dmIds: array<nat>)
    reads matrix, decoding, dmIds
  {
    && F.w >= 1 && matrix.Length == Base(m, k) && |erased| == k + m
    && decoding.Length == Base(k, k) && dmIds.Length == k
    && Decodes(F, Rows(matrix[..], m, k), k, m, dmIds[..], Rows(decoding[..], k, k))
    && forall l :: 0 <= l < k ==> !erased[dmIds[l]]
  }

  /** What the inner product has to find, and what it produces. */
  lemma DecodeReady(F: Field, k: nat, m: nat, matrix: array<nat>, decoding: array<nat>, dmIds: array<nat>,
                    dev: seq<array<nat>>, size: nat, i: nat, erased: seq<bool>)
    requires Setup(F, k, m, matrix, dev, size) && i < k && |erased| == k + m && erased[i]
    requires Prepared(F, k, m, matrix, erased, decoding, dmIds) && decoding !in dev && dmIds !in dev
    ensures F.w >= 1 && i < |dev| && Callable(k, decoding, Base(i, k), dmIds, i, dev, size)
    ensures matrix.Length == Base(m, k) && decoding.Length == Base(k, k) && dmIds.Length == k
    ensures Matrix(F, Rows(matrix[..], m, k), m, k) && SourceIds(dmIds, k) == dmIds[..]
    ensures Decodes(F, Rows(matrix[..], m, k), k, m, dmIds[..], Rows(decoding[..], k, k))
    ensures forall l :: 0 <= l < k ==> !erased[dmIds[..][l]]
    ensures Base(i, k) + k <= decoding.Length && decoding[Base(i, k)..Base(i, k) + k] == Rows(decoding[..], k, k)[i]
  {
    hide LeftInverse, Matrix, IsField, HasNonzero;
    BaseBefore(i, k, k);
    assert RowOf(decoding[..], k, k, i) == Rows(decoding[..], k, k)[i];
  }

  lemma DecodeStep(F: Field, C: seq<Row>, k: nat, m: nat, orig: seq<Row>, D: seq<Row>, erased: seq<bool>,
                   ids: seq<nat>, inv: seq<Row>, i: nat, size: nat)
    requires F.w >= 1 && Matrix(F, C, m, k) && Codeword(F, C, k, m, orig, size) && i < k
    requires Restored(orig, D, erased, i) && |erased| == k + m && erased[i]
    requires Decodes(F, C, k, m, ids, inv) && forall l :: 0 <= l < k ==> !erased[ids[l]]
    requires |inv[i]| == k && Sources(D, ids, size)
    ensures HasNonzero(inv[i]) && Restored(orig, D[i := Combine(F, inv[i], D, ids, size)], erased, i + 1)
  {
    InverseRowNonzero(F, inv, SurvivorMatrix(C, k, ids), k, i);
    RowDecodes(F, C, k, m, orig, size, ids, inv, i);
    hide LeftInverse, Codeword, Combine, Matrix;
    CombineSame(F, inv[i], D, orig, ids, size);
    RestoreOne(orig, D, erased, i, Combine(F, inv[i], D, ids, size));
  }

  /** One data device, from the survivors. */
  method DecodeDevice(F: Field, k: nat, m: nat, matrix: array<nat>, decoding: array<nat>, dmIds: array<nat>,
                      dev: seq<array<nat>>, size: nat, i: nat, ghost orig: seq<Row>, ghost erased: seq<bool>)
    requires Setup(F, k, m, matrix, dev, size) && i < k && |erased| == k + m && erased[i]
    requires Prepared(F, k, m, matrix, erased, decoding, dmIds) && decoding !in dev && dmIds !in dev
    requires Codeword(F, Rows(matrix[..], m, k), k, m, orig, size) && Restored(orig, View(dev), erased, i)
    modifies dev[i]
    ensures Restored(orig, View(dev), erased, i + 1) && OthersKept(View(dev), old(View(dev)), i)
  {
    hide *;
    DecodeReady(F, k, m, matrix, decoding, dmIds, dev, size, i, erased);
    ghost var C, D, ids, inv := Rows(matrix[..], m, k), View(dev), dmIds[..], Rows(decoding[..], k, k);
    MatrixDotprod(F, k, decoding, Base(i, k), dmIds, i, dev, size);
    DecodeStep(F, C, k, m, orig, D, erased, ids, inv, i, size);
    OneChanged(D, i, Combine(F, inv[i], D, ids, size));
  }

  /** Nothing but device `i` differs. */
  ghost predicate OthersKept(E: seq<Row>, D: seq<Row>, i: nat) {
    |E| == |D| && forall d: nat :: d < |D| && d != i ==> E[d] == D[d]
  }

  lemma OneChanged(D: seq<Row>, i: nat, out: Row)
    requires i < |D|
    ensures OthersKept(D[i := out], D, i) && OthersKept(D, D, i)
  {
  }

  /** The coding devices are untouched. */
  ghost predicate CodingKept(E: seq<Row>, D: seq<Row>, k: nat) {
    |E| == |D| && forall d: nat :: k <= d < |D| ==> E[d] == D[d]
  }

  lemma StillKept(E: seq<Row>, D: seq<Row>, was: seq<Row>, i: nat, k: nat)
    requires CodingKept(D, was, k) && OthersKept(E, D, i) && i < k
    ensures CodingKept(E, was, k)
  {
  }

  lemma KeptAtStart(D: seq<Row>, k: nat)
    ensures CodingKept(D, D, k)
  {
  }

  /** The state of a decode that has restored the data devices below `i`. */
  ghost predicate Decoding(F: Field, k: nat, m: nat, matrix: array<nat>, decoding: array<nat>, dmIds: array<nat>,
                           dev: seq<array<nat>>, size: nat, orig: seq<Row>, erased: seq<bool>, i: nat, lastdrive: nat)
    reads matrix, decoding, dmIds, dev
  {
    && Setup(F, k, m, matrix, dev, size) && |erased| == k + m && lastdrive <= k
    && Codeword(F, Rows(matrix[..], m, k), k, m, orig, size) && Restored(orig, View(dev), erased, i)
    && ((exists d :: 0 <= d < lastdrive && erased[d]) ==> Prepared(F, k, m, matrix, erased, decoding, dmIds))
  }

  /** One turn of the decoding loop. */
  method DecodeNext(F: Field, k: nat, m: nat, matrix: array<nat>, erased: array<bool>, lastdrive: nat,
                    decoding: array<nat>, dmIds: array<nat>, dev: seq<array<nat>>, size: nat, i: nat, ghost orig: seq<Row>)
    returns (decoded: nat)
    requires Decoding(F, k, m, matrix, decoding, dmIds, dev, size, orig, erased[..], i, lastdrive) && i < lastdrive
    requires matrix !in dev && decoding !in dev && dmIds !in dev && i < erased.Length && i < |dev|
    modifies dev[i]
    ensures Decoding(F, k, m, matrix, decoding, dmIds, dev, size, orig, erased[..], i + 1, lastdrive)
    ensures OthersKept(View(dev), old(View(dev)), i)
    ensures decoded == if erased[i] then 1 else 0
  {
    hide Restored, Codeword, Xor, View, Prepared, Matrix, IsField, Base, Rows, HasNonzero, Buffers, OthersKept;
    if erased[i] {
      assert erased[..][i];
      DecodeDevice(F, k, m, matrix, decoding, dmIds, dev, size, i, orig, erased[..]);
      decoded := 1;
    } else {
      RestoredLength(orig, View(dev), erased[..], i);
      RestoreOne(orig, View(dev), erased[..], i, []);
      OneChanged(View(dev), i, []);
      decoded := 0;
    }
  }

  lemma RestoredLength(orig: seq<Row>, D: seq<Row>, erased: seq<bool>, i: nat)
    requires Restored(orig, D, erased, i)
    ensures |D| == |orig| == |erased|
  {
  }

  /** Data devices up to `lastdrive`, as long as any is missing. */
  method DecodeData(F: Field, k: nat, m: nat, matrix: array<nat>, erased: array<bool>, lastdrive: nat, edd0: nat,
                    decoding: array<nat>, dmIds: array<nat>, dev: seq<array<nat>>, size: nat, ghost orig: seq<Row>)
    returns (edd: nat)
    requires Decoding(F, k, m, matrix, decoding, dmIds, dev, size, orig, erased[..], 0, lastdrive)
    requires matrix !in dev && decoding !in dev && dmIds !in dev && erased.Length == |dev| == k + m
    requires lastdrive <= k && edd0 == ErasedBelow(erased[..], k)
    modifies dev
    ensures matrix[..] == old(matrix[..]) && CodingKept(View(dev), old(View(dev)), k)
    ensures edd == ErasedBelow(erased[..], k) - ErasedBelow(erased[..], lastdrive)
    ensures Decoding(F, k, m, matrix, decoding, dmIds, dev, size, orig, erased[..], if edd == 0 then k else lastdrive, lastdrive)
  {
    hide *;
    ghost var e, was := erased[..], View(dev);
    KeptAtStart(was, k);
    edd := edd0;
    var i: nat := 0;
    ErasedBetween(e, 0, k);
    NoneBelowZero(e);
    while edd > 0 && i < lastdrive
      invariant i <= lastdrive && matrix[..] == old(matrix[..]) && CodingKept(View(dev), was, k)
      invariant edd == ErasedBelow(e, k) - ErasedBelow(e, i)
      invariant Decoding(F, k, m, matrix, decoding, dmIds, dev, size, orig, e, i, lastdrive)
    {
      ghost var D := View(dev);
      var decoded := DecodeNext(F, k, m, matrix, erased, lastdrive, decoding, dmIds, dev, size, i, orig);
      StillKept(View(dev), D, was, i, k);
      ErasedStep(e, i);
      ErasedBetween(e, i + 1, k);
      edd := edd - decoded;
      i := i + 1;
    }
    ErasedBetween(e, i, lastdrive);
    ErasedBetween(e, lastdrive, k);
    if edd == 0 { NoneLeft(F, k, m, matrix, decoding, dmIds, dev, size, orig, e, i, lastdrive); }
  }

  lemma NoneBelowZero(e: seq<bool>)
    ensures ErasedBelow(e, 0) == 0
  {
  }

  lemma ErasedStep(e: seq<bool>, i: nat)
    requires i < |e|
    ensures ErasedBelow(e, i + 1) == ErasedBelow(e, i) + if e[i] then 1 else 0
  {
  }

  lemma NoneLeft(F: Field, k: nat, m: nat, matrix: array<nat>, decoding: array<nat>, dmIds: array<nat>,
                 dev: seq<array<nat>>, size: nat, orig: seq<Row>, erased: seq<bool>, i: nat, lastdrive: nat)
    requires Decoding(F, k, m, matrix, decoding, dmIds, dev, size, orig, erased, i, lastdrive)
    requires i <= k <= |erased| && ErasedBelow(erased, k) == ErasedBelow(erased, i)
    ensures Decoding(F, k, m, matrix, decoding, dmIds, dev, size, orig, erased, k, lastdrive)
  {
    ErasedBetween(erased, i, k);
    hide Prepared, Codeword, Setup;
  }

  // ----- the last data device, from the parity row

  lemma ParityStep(F: Field, C: seq<Row>, k: nat, m: nat, orig: seq<Row>, D: seq<Row>, erased: seq<bool>, last: nat, size: nat)
    requires F.w >= 1 && Matrix(F, C, m, k) && Codeword(F, C, k, m, orig, size) && m >= 1 && last < k
    requires Restored(orig, D, erased, last) && |erased| == k + m && AllOnesRow(C[0]) && |C[0]| == k
    requires erased[last] && !erased[k] && forall d: nat :: last < d < k ==> !erased[d]
    requires Sources(D, SkipIds(k, last), size)
    ensures HasNonzero(C[0]) && Restored(orig, D[last := Combine(F, C[0], D, SkipIds(k, last), size)], erased, k)
  {
    assert C[0][last] == 1;
    ParityDecodes(F, C, k, m, orig, size, last);
    forall i | 0 <= i < k ensures D[SkipIds(k, last)[i]] == orig[SkipIds(k, last)[i]] {
      var d: nat := SkipIds(k, last)[i];
      assert d < last || !erased[d];
    }
    hide Codeword, Combine, Matrix;
    CombineSame(F, C[0], D, orig, SkipIds(k, last), size);
  }

  method DecodeByParity(F: Field, k: nat, m: nat, matrix: array<nat>, erased: array<bool>, lastdrive: nat,
                        dev: seq<array<nat>>, size: nat, ghost orig: seq<Row>)
    requires Setup(F, k, m, matrix, dev, size) && erased.Length == k + m && lastdrive < k
    requires Codeword(F, Rows(matrix[..], m, k), k, m, orig, size) && Restored(orig, View(dev), erased[..], lastdrive)
    requires AllOnesRow(Rows(matrix[..], m, k)[0])
    requires erased[lastdrive] && !erased[k] && forall d: nat :: lastdrive < d < k ==> !erased[d]
    modifies dev[lastdrive]
    ensures Restored(orig, View(dev), erased[..], k) && OthersKept(View(dev), old(View(dev)), lastdrive)
  {
    hide *;
    SetupFacts(F, k, m, matrix, dev, size);
    var tmpids := FillSkipIds(k, lastdrive);
    ParityDevice(F, k, m, matrix, erased, lastdrive, tmpids, dev, size, orig);
  }

  method FillSkipIds(k: nat, lastdrive: nat) returns (tmpids: array<nat>)
    ensures fresh(tmpids) && tmpids[..] == SkipIds(k, lastdrive)
  {
    tmpids := new nat[k];
    var i: nat := 0;
    while i < k
      invariant i <= k && forall l :: 0 <= l < i ==> tmpids[l] == if l < lastdrive then l else l + 1
    {
      tmpids[i] := if i < lastdrive then i else i + 1;
      i := i + 1;
    }
  }

  /** The call of the inner product with the parity row. */
  method ParityDevice(F: Field, k: nat, m: nat, matrix: array<nat>, erased: array<bool>, lastdrive: nat, tmpids: array<nat>,
                      dev: seq<array<nat>>, size: nat, ghost orig: seq<Row>)
    requires Setup(F, k, m, matrix, dev, size) && erased.Length == k + m && lastdrive < k
    requires Codeword(F, Rows(matrix[..], m, k), k, m, orig, size) && Restored(orig, View(dev), erased[..], lastdrive)
    requires AllOnesRow(Rows(matrix[..], m, k)[0]) && tmpids[..] == SkipIds(k, lastdrive) && tmpids !in dev
    requires erased[lastdrive] && !erased[k] && forall d: nat :: lastdrive < d < k ==> !erased[d]
    modifies dev[lastdrive]
    ensures Restored(orig, View(dev), erased[..], k) && OthersKept(View(dev), old(View(dev)), lastdrive)
  {
    hide *;
    ParityReady(F, k, m, matrix, tmpids, dev, size, lastdrive);
    ghost var C, D, e := Rows(matrix[..], m, k), View(dev), erased[..];
    MatrixDotprod(F, k, matrix, 0, tmpids, lastdrive, dev, size);
    ParityStep(F, C, k, m, orig, D, e, lastdrive, size);
    OneChanged(D, lastdrive, Combine(F, C[0], D, SkipIds(k, lastdrive), size));
  }

  lemma ParityReady(F: Field, k: nat, m: nat, matrix: array<nat>, tmpids: array<nat>, dev: seq<array<nat>>, size: nat, last: nat)
    requires Setup(F, k, m, matrix, dev, size) && last < k && tmpids[..] == SkipIds(k, last) && tmpids !in dev
    ensures F.w >= 1 && m >= 1 && |dev| == k + m && matrix.Length == Base(m, k) && matrix !in dev
    ensures Matrix(F, Rows(matrix[..], m, k), m, k) && |Rows(matrix[..], m, k)[0]| == k
    ensures tmpids.Length == k && SourceIds(tmpids, k) == SkipIds(k, last)
    ensures Callable(k, matrix, 0, tmpids, last, dev, size)
    ensures k <= matrix.Length && matrix[0..0 + k] == Rows(matrix[..], m, k)[0]
  {
    BaseStep(0, k);
    BaseBefore(0, m, k);
    assert RowOf(matrix[..], m, k, 0) == Rows(matrix[..], m, k)[0];
    assert |tmpids[..]| == tmpids.Length;
    forall i | 0 <= i < k ensures SourceIds(tmpids, k)[i] < |dev| && SourceIds(tmpids, k)[i] != last {
      assert tmpids[..][i] == SkipIds(k, last)[i];
    }
  }

  // ----- the coding devices, by encoding again

  /** Where decoding leads: every device as in `orig`, except lost coding devices with a row of zeros,
      which are not written and keep what they hold in `was`. */
  ghost function Target(orig: seq<Row>, was: seq<Row>, C: seq<Row>, k: nat, erased: seq<bool>): (T: seq<Row>)
    requires |orig| == |was| == |erased| == k + |C|
    ensures |T| == |orig|
    ensures forall d: nat :: d < |T| ==> T[d] == if Unwritten(C, k, erased, d) then was[d] else orig[d]
  {
    seq(|orig|, d requires 0 <= d < |orig| => if Unwritten(C, k, erased, d) then was[d] else orig[d])
  }

  predicate Unwritten(C: seq<Row>, k: nat, erased: seq<bool>, d: nat)
    requires d < |erased| == k + |C|
  {
    d >= k && erased[d] && !HasNonzero(C[d - k])
  }

  /** Coding device `k + i`, by encoding again. */
  lemma EncodeStep(F: Field, C: seq<Row>, k: nat, m: nat, orig: seq<Row>, was: seq<Row>, D: seq<Row>, erased: seq<bool>, i: nat, size: nat)
    requires F.w >= 1 && Matrix(F, C, m, k) && Codeword(F, C, k, m, orig, size) && i < m && |C[i]| == k && |C| == m
    requires |erased| == |was| == |orig| == |D| == k + m && Sources(D, DataIds(k), size) && erased[k + i]
    requires Restored(Target(orig, was, C, k, erased), D, erased, k + i) && CodingKept(D, was, k + i)
    ensures Restored(Target(orig, was, C, k, erased), WithRow(F, C[i], k, i, D, size), erased, k + i + 1)
    ensures CodingKept(WithRow(F, C[i], k, i, D, size), was, k + i + 1)
  {
    hide HasNonzero, Combine, Matrix;
    ContentsSources(F, orig, k + m, size, DataIds(k));
    assert orig[k + i] == Combine(F, C[i], orig, DataIds(k), size);
    forall j | 0 <= j < k ensures D[j] == orig[j] { assert D[j] == Target(orig, was, C, k, erased)[j]; }
    CombineSame(F, C[i], D, orig, DataIds(k), size);
  }

  lemma TargetStart(C: seq<Row>, k: nat, orig: seq<Row>, was: seq<Row>, D: seq<Row>, erased: seq<bool>)
    requires |erased| == |was| == |orig| == k + |C| && Restored(orig, D, erased, k) && CodingKept(D, was, k)
    ensures Restored(Target(orig, was, C, k, erased), D, erased, k)
  {
  }

  lemma SkipAlive(T: seq<Row>, was: seq<Row>, D: seq<Row>, erased: seq<bool>, i: nat)
    requires Restored(T, D, erased, i) && i < |D| && !erased[i] && CodingKept(D, was, i)
    ensures Restored(T, D, erased, i + 1) && CodingKept(D, was, i + 1)
  {
  }

  method DecodeCoding(F: Field, k: nat, m: nat, matrix: array<nat>, erased: array<bool>, dev: seq<array<nat>>, size: nat,
                      ghost orig: seq<Row>, ghost was: seq<Row>)
    requires Setup(F, k, m, matrix, dev, size) && erased.Length == k + m && |was| == |orig| == k + m
    requires Codeword(F, Rows(matrix[..], m, k), k, m, orig, size) && Restored(orig, View(dev), erased[..], k)
    requires CodingKept(View(dev), was, k)
    modifies dev
    ensures |Rows(matrix[..], m, k)| == m && Restored(Target(orig, was, Rows(matrix[..], m, k), k, erased[..]), View(dev), erased[..], k + m)
    ensures matrix[..] == old(matrix[..])
  {
    hide *;
    SetupFacts(F, k, m, matrix, dev, size);
    ghost var C, e := Rows(matrix[..], m, k), erased[..];
    ghost var T := Target(orig, was, C, k, e);
    TargetStart(C, k, orig, was, View(dev), e);
    var i: nat := 0;
    while i < m
      invariant i <= m && Encodable(F, k, m, matrix, dev, size) && matrix[..] == old(matrix[..])
      invariant Restored(T, View(dev), e, k + i) && CodingKept(View(dev), was, k + i)
    {
      ghost var D := View(dev);
      if erased[k + i] {
        EncodeDevice(F, k, m, matrix, dev, size, i);
        EncodeStep(F, C, k, m, orig, was, D, e, i, size);
      } else {
        SkipAlive(T, was, D, e, k + i);
      }
      i := i + 1;
    }
  }

  lemma SetupFacts(F: Field, k: nat, m: nat, matrix: array<nat>, dev: seq<array<nat>>, size: nat)
    requires Setup(F, k, m, matrix, dev, size)
    ensures IsField(F) && F.w >= 1 && m >= 1 && |dev| == k + m && matrix.Length == Base(m, k) && matrix !in dev
    ensures Matrix(F, Rows(matrix[..], m, k), m, k) && |Rows(matrix[..], m, k)| == m
    ensures forall i :: 0 <= i < m ==> |Rows(matrix[..], m, k)[i]| == k
    ensures Encodable(F, k, m, matrix, dev, size)
  {
  }

  // ----- the routine

  /** Exactly the calls that fail. */
  ghost predicate Fails(F: Field, C: seq<Row>, k: nat, m: nat, rowKOnes: bool, erasures: seq<nat>)
    requires F.w >= 1 && Matrix(F, C, m, k) && m >= 1
  {
    var e := Flags(erasures, k + m);
    || !WordSize(F.w)
    || |Members(erasures)| > m
    || (NeedsMatrix(ErasedBelow(e, k), rowKOnes, e[k]) && SurvivorsSingular(F, C, k, m, e))
  }

  ghost predicate SurvivorsSingular(F: Field, C: seq<Row>, k: nat, m: nat, e: seq<bool>)
    requires F.w >= 1 && Matrix(F, C, m, k) && |e| == k + m
  {
    |Alive(e, |e|)| >= k && (
      var S := SurvivorMatrix(C, k, FirstAlive(e, k));
      SurvivorMatrixElements(F, C, k, m, FirstAlive(e, k));
      Singular(F, S, k))
  }

  lemma EnoughAlive(erasures: seq<nat>, k: nat, m: nat, e: seq<bool>)
    requires |Members(erasures)| <= m && |e| == k + m && forall d: nat :: d < k + m ==> (e[d] <==> d in erasures)
    ensures |Alive(e, k + m)| >= k && e == Flags(erasures, k + m)
  {
    AliveCount(e, k + m, Members(erasures));
  }

  /** The decoding matrix, when one is needed. */
  method PrepareDecoding(F: Field, k: nat, m: nat, matrix: array<nat>, erased: array<bool>, needed: bool,
                         dev: seq<array<nat>>) returns (ok: bool, decoding: array<nat>, dmIds: array<nat>)
    requires IsField(F) && matrix.Length == Base(m, k) && Matrix(F, Rows(matrix[..], m, k), m, k)
    requires erased.Length == k + m && |Alive(erased[..], k + m)| >= k
    ensures fresh(decoding) && fresh(dmIds)
    ensures ok <==> !(needed && SurvivorsSingular(F, Rows(matrix[..], m, k), k, m, erased[..]))
    ensures ok && needed ==> Prepared(F, k, m, matrix, erased[..], decoding, dmIds)
  {
    hide *;
    if !needed {
      decoding, dmIds, ok := new nat[0], new nat[0], true;
    } else {
      SingularSurvivors(F, Rows(matrix[..], m, k), k, m, erased[..]);
      decoding, dmIds := new nat[Base(k, k)], new nat[k];
      var r := MakeDecodingMatrix(F, k, m, matrix, erased, decoding, dmIds);
      ok := r == 0;
      if ok { IsPrepared(F, k, m, matrix, erased[..], decoding, dmIds); }
    }
  }

  lemma SingularSurvivors(F: Field, C: seq<Row>, k: nat, m: nat, e: seq<bool>)
    requires IsField(F) && Matrix(F, C, m, k) && |e| == k + m && |Alive(e, k + m)| >= k
    ensures F.w >= 1 && forall i :: 0 <= i < m ==> |C[i]| == k
    ensures SurvivorsSingular(F, C, k, m, e) == Singular(F, SurvivorMatrix(C, k, FirstAlive(e, k)), k)
  {
    hide Singular, SurvivorMatrix;
    forall i | 0 <= i < m ensures |C[i]| == k { assert Vec(F, C[i], k); }
  }

  lemma IsPrepared(F: Field, k: nat, m: nat, matrix: array<nat>, e: seq<bool>, decoding: array<nat>, dmIds: array<nat>)
    requires F.w >= 1 && matrix.Length == Base(m, k) && |e| == k + m && |Alive(e, k + m)| >= k
    requires decoding.Length == Base(k, k) && dmIds.Length == k && dmIds[..] == FirstAlive(e, k)
    requires Decodes(F, Rows(matrix[..], m, k), k, m, dmIds[..], Rows(decoding[..], k, k))
    ensures Prepared(F, k, m, matrix, e, decoding, dmIds)
  {
    hide Decodes, Rows, Base;
    forall l | 0 <= l < k ensures !e[dmIds[l]] { assert dmIds[l] == FirstAlive(e, k)[l]; }
  }

  lemma StartDecoding(orig: seq<Row>, D: seq<Row>, erasures: seq<nat>, e: seq<bool>)
    requires |D| == |orig| == |e| && forall d: nat :: d < |e| ==> (e[d] <==> d in erasures)
    requires forall d: nat :: d < |D| && d !in erasures ==> D[d] == orig[d]
    ensures Restored(orig, D, e, 0)
  {
  }

  /** No data device below the stopping point is erased unless the matrix is needed. */
  lemma NeededBelow(e: seq<bool>, k: nat, rowKOnes: bool, last: nat, d: nat)
    requires k < |e| && StopsAt(e, k, rowKOnes, last) && d < last && e[d] && last <= k
    ensures NeedsMatrix(ErasedBelow(e, k), rowKOnes, e[k])
  {
    ErasedBetween(e, 0, d);
    ErasedBetween(e, d + 1, k);
    if last < k {
      ErasedBetween(e, d + 1, last);
      ErasedBetween(e, last + 1, k);
    }
  }

  /** What is left after the decoding loop is at most the last device, and the parity row applies. */
  lemma OnlyParityLeft(e: seq<bool>, k: nat, rowKOnes: bool, last: nat)
    requires k < |e| && StopsAt(e, k, rowKOnes, last) && last <= k && ErasedBelow(e, k) > ErasedBelow(e, last)
    ensures last < k && rowKOnes && e[last] && !e[k] && forall d: nat :: last < d < k ==> !e[d]
  {
  }

  lemma StartState(F: Field, k: nat, m: nat, matrix: array<nat>, rowKOnes: bool, decoding: array<nat>, dmIds: array<nat>,
                   dev: seq<array<nat>>, size: nat, orig: seq<Row>, e: seq<bool>, last: nat)
    requires Setup(F, k, m, matrix, dev, size) && |e| == k + m && last <= k && StopsAt(e, k, rowKOnes, last)
    requires Codeword(F, Rows(matrix[..], m, k), k, m, orig, size) && Restored(orig, View(dev), e, 0)
    requires NeedsMatrix(ErasedBelow(e, k), rowKOnes, e[k]) ==> Prepared(F, k, m, matrix, e, decoding, dmIds)
    ensures Decoding(F, k, m, matrix, decoding, dmIds, dev, size, orig, e, 0, last)
    ensures |dev| == k + m && F.w >= 1 && matrix.Length == Base(m, k)
  {
    if d: nat :| d < last && e[d] { NeededBelow(e, k, rowKOnes, last, d); }
  }

  lemma StateFacts(F: Field, k: nat, m: nat, matrix: array<nat>, decoding: array<nat>, dmIds: array<nat>,
                   dev: seq<array<nat>>, size: nat, orig: seq<Row>, e: seq<bool>, i: nat, last: nat)
    requires Decoding(F, k, m, matrix, decoding, dmIds, dev, size, orig, e, i, last)
    ensures Setup(F, k, m, matrix, dev, size) && Restored(orig, View(dev), e, i)
    ensures F.w >= 1 && matrix.Length == Base(m, k) && Matrix(F, Rows(matrix[..], m, k), m, k)
    ensures Codeword(F, Rows(matrix[..], m, k), k, m, orig, size)
  {
  }

  lemma AllRestored(orig: seq<Row>, D: seq<Row>, e: seq<bool>)
    requires Restored(orig, D, e, |e|)
    ensures D == orig
  {
  }

  /** What a successful decode leaves. */
  ghost predicate DecodedTo(now: seq<Row>, orig: seq<Row>, was: seq<Row>, C: seq<Row>, k: nat, erased: seq<bool>) {
    |orig| == |was| == |erased| == k + |C| && now == Target(orig, was, C, k, erased)
  }

  /** Everything is restored exactly when the lost coding devices with a row of zeros were right before;
      in particular when no such row is lost. */
  lemma DecodedIsRestored(now: seq<Row>, orig: seq<Row>, was: seq<Row>, C: seq<Row>, k: nat, erased: seq<bool>)
    requires DecodedTo(now, orig, was, C, k, erased)
    ensures now == orig <==> forall d: nat :: d < |orig| && Unwritten(C, k, erased, d) ==> was[d] == orig[d]
  {
    hide HasNonzero;
    if now == orig {
      forall d: nat | d < |orig| && Unwritten(C, k, erased, d) ensures was[d] == orig[d] { assert now[d] == orig[d]; }
    }
  }

  /** 0: every device is as it was, apart from lost coding devices whose row is zero, which no decoder
      writes. */
  method MatrixDecode(F: Field, k: nat, m: nat, matrix: array<nat>, rowKOnes: bool, erasures: seq<nat>,
                      dev: seq<array<nat>>, size: nat, ghost orig: seq<Row>) returns (r: int)
    requires Setup(F, k, m, matrix, dev, size)
    requires rowKOnes ==> AllOnesRow(Rows(matrix[..], m, k)[0])
    requires forall i :: 0 <= i < |erasures| ==> erasures[i] < k + m
    requires Codeword(F, Rows(matrix[..], m, k), k, m, orig, size)
    requires forall d: nat :: d < k + m && d !in erasures ==> View(dev)[d] == orig[d]
    modifies dev
    ensures r == 0 || r == -1
    ensures r == 0 ==> DecodedTo(View(dev), orig, old(View(dev)), old(Rows(matrix[..], m, k)), k, Flags(erasures, k + m))
    ensures r == -1 ==> View(dev) == old(View(dev))
    ensures r == -1 <==> Fails(F, old(Rows(matrix[..], m, k)), k, m, rowKOnes, erasures)
  {
    hide *;
    SetupFacts(F, k, m, matrix, dev, size);
    CodewordSize(F, Rows(matrix[..], m, k), k, m, orig, size);
    FailsWhen(F, Rows(matrix[..], m, k), k, m, rowKOnes, erasures);
    if F.w != 8 && F.w != 16 && F.w != 32 { return -1; }
    var flags := ErasuresToErased(k, m, erasures);
    if flags == null { return -1; }
    var erased: array<bool> := flags;
    EnoughAlive(erasures, k, m, erased[..]);
    StartDecoding(orig, View(dev), erasures, erased[..]);
    var edd, lastdrive := CountErased(k, erased, rowKOnes);
    var needed := edd > 1 || (edd > 0 && (!rowKOnes || erased[k]));
    Needed(edd, rowKOnes, erased[k], needed);
    assert erased[k] == erased[..][k];
    var ok, decoding, dmIds := PrepareDecoding(F, k, m, matrix, erased, needed, dev);
    if !ok { return -1; }
    RestoreDevices(F, k, m, matrix, rowKOnes, erased, edd, lastdrive, decoding, dmIds, dev, size, orig);
    r := 0;
  }

  lemma Needed(edd: nat, rowKOnes: bool, parityErased: bool, needed: bool)
    requires needed == (edd > 1 || (edd > 0 && (!rowKOnes || parityErased)))
    ensures needed == NeedsMatrix(edd, rowKOnes, parityErased)
  {
  }

  /** The three ways to fail. */
  lemma FailsWhen(F: Field, C: seq<Row>, k: nat, m: nat, rowKOnes: bool, erasures: seq<nat>)
    requires F.w >= 1 && Matrix(F, C, m, k) && m >= 1
    ensures F.w != 8 && F.w != 16 && F.w != 32 ==> Fails(F, C, k, m, rowKOnes, erasures)
    ensures |Members(erasures)| > m ==> Fails(F, C, k, m, rowKOnes, erasures)
    ensures var e := Flags(erasures, k + m);
      (F.w == 8 || F.w == 16 || F.w == 32) && |Members(erasures)| <= m ==>
        Fails(F, C, k, m, rowKOnes, erasures) == (NeedsMatrix(ErasedBelow(e, k), rowKOnes, e[k]) && SurvivorsSingular(F, C, k, m, e))
  {
    hide Matrix, SurvivorsSingular;
  }

  lemma CodewordSize(F: Field, C: seq<Row>, k: nat, m: nat, D: seq<Row>, size: nat)
    requires F.w >= 1 && Matrix(F, C, m, k) && Codeword(F, C, k, m, D, size)
    ensures |D| == k + m
  {
  }

  /** The three restoring steps, once the decoding matrix is there. */
  method RestoreDevices(F: Field, k: nat, m: nat, matrix: array<nat>, rowKOnes: bool, erased: array<bool>, edd: nat,
                        lastdrive: nat, decoding: array<nat>, dmIds: array<nat>, dev: seq<array<nat>>, size: nat,
                        ghost orig: seq<Row>)
    requires Setup(F, k, m, matrix, dev, size) && erased.Length == k + m && m >= 1 && matrix !in dev
    requires decoding !in dev && dmIds !in dev && lastdrive <= k
    requires edd == ErasedBelow(erased[..], k) && StopsAt(erased[..], k, rowKOnes, lastdrive)
    requires Codeword(F, Rows(matrix[..], m, k), k, m, orig, size) && Restored(orig, View(dev), erased[..], 0)
    requires rowKOnes ==> AllOnesRow(Rows(matrix[..], m, k)[0])
    requires NeedsMatrix(edd, rowKOnes, erased[k]) ==> Prepared(F, k, m, matrix, erased[..], decoding, dmIds)
    modifies dev
    ensures matrix[..] == old(matrix[..]) && DecodedTo(View(dev), orig, old(View(dev)), Rows(matrix[..], m, k), k, erased[..])
  {
    hide *;
    SetupFacts(F, k, m, matrix, dev, size);
    RestoredLength(orig, View(dev), erased[..], 0);
    StartState(F, k, m, matrix, rowKOnes, decoding, dmIds, dev, size, orig, erased[..], lastdrive);
    ghost var e, was := erased[..], View(dev);
    var left := DecodeData(F, k, m, matrix, erased, lastdrive, edd, decoding, dmIds, dev, size, orig);
    StateFacts(F, k, m, matrix, decoding, dmIds, dev, size, orig, e, if left == 0 then k else lastdrive, lastdrive);
    if left > 0 {
      OnlyParityLeft(e, k, rowKOnes, lastdrive);
      assert e[lastdrive] == erased[lastdrive] && e[k] == erased[k];
      ghost var D := View(dev);
      DecodeByParity(F, k, m, matrix, erased, lastdrive, dev, size, orig);
      StillKept(View(dev), D, was, lastdrive, k);
    }
    DecodeCoding(F, k, m, matrix, erased, dev, size, orig, was);
    AllRestored(Target(orig, was, Rows(matrix[..], m, k), k, e), View(dev), e);
    ReachedTarget(View(dev), orig, was, Rows(matrix[..], m, k), k, e);
  }

  lemma ReachedTarget(now: seq<Row>, orig: seq<Row>, was: seq<Row>, C: seq<Row>, k: nat, erased: seq<bool>)
    requires |orig| == |was| == |erased| == k + |C| && now == Target(orig, was, C, k, erased)
    ensures DecodedTo(now, orig, was, C, k, erased)
  {
  }
}
