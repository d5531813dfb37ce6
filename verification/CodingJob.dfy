/** What the coder thread does with one round of worker buffers: `performEncodingJob` and
    `performDecodingJob`, byte for byte. */
module CodingJob {
  import opened Bytes
  import opened Bits
  import opened Galois
  import opened LinearAlgebra
  import opened RowMajor
  import opened Elimination
  import opened Survivors
  import opened Devices
  import opened Dotprod
  import opened Erasures
  import opened DecodingMatrix
  import opened MatrixDecode
  import opened Striping
  import opened StripeWrite
  import opened ByteWords
  import opened GcrsCreate
  import opened GrsDecoding
  import opened StripeCoding

  // ----- `jerasure_matrix_encode` on buffers of bytes

  /** The buffers hold at least `n` bytes and none is given twice. */
  ghost predicate ByteBuffers(bufs: seq<array<Byte>>, n: nat) {
    && (forall i :: 0 <= i < |bufs| ==> n <= bufs[i].Length)
    && forall i, j :: 0 <= i < j < |bufs| ==> bufs[i] != bufs[j]
  }

  /** The first `n` bytes of the buffers, as words. */
  ghost function WordView(bufs: seq<array<Byte>>, n: nat, c: nat): (D: seq<Row>)
    requires c >= 1 && ByteBuffers(bufs, n)
    reads bufs
    ensures |D| == |bufs| && forall i :: 0 <= i < |bufs| ==> D[i] == Words(bufs[i][..n], c)
  {
    seq(|bufs|, i requires 0 <= i < |bufs| reads bufs => Words(bufs[i][..n], c))
  }

  method LoadAll(bufs: seq<array<Byte>>, n: nat, c: nat) returns (dev: seq<array<nat>>)
    requires c >= 1 && ByteBuffers(bufs, n)
    ensures |dev| == |bufs| && (forall i :: 0 <= i < |dev| ==> fresh(dev[i])) && Buffers(dev, Whole(n, c))
    ensures View(dev) == WordView(bufs, n, c)
  {
    hide Base, Whole, Words;
    dev := [];
    var i: nat := 0;
    while i < |bufs|
      invariant i <= |bufs| && |dev| == i && (forall j :: 0 <= j < i ==> fresh(dev[j])) && Buffers(dev, Whole(n, c))
      invariant forall j :: 0 <= j < i ==> dev[j][..] == Words(bufs[j][..n], c)
    {
      var words := LoadWords(bufs[i], n, c);
      dev := dev + [words];
      i := i + 1;
    }
  }

  method StoreAll(dev: seq<array<nat>>, bufs: seq<array<Byte>>, n: nat, c: nat)
    requires c >= 1 && ByteBuffers(bufs, n) && |dev| == |bufs| && Buffers(dev, Whole(n, c))
    requires forall i, j :: 0 <= i < |dev| && 0 <= j < |bufs| ==> (dev[i] as object) != bufs[j]
    requires forall i, p :: 0 <= i < |dev| && 0 <= p < dev[i].Length ==> dev[i][p] < Pow2(8 * c)
    modifies bufs
    ensures WordView(bufs, n, c) == old(View(dev))
  {
    hide Base, Whole, Words, Pow2;
    ghost var D := View(dev);
    var i: nat := 0;
    while i < |bufs|
      invariant i <= |bufs| && View(dev) == D
      invariant forall j :: 0 <= j < i ==> Words(bufs[j][..n], c) == D[j]
    {
      assert forall p :: 0 <= p < dev[i].Length ==> dev[i][p] == old(dev[i][p]) by { assert dev[i][..] == D[i]; }
      StoreWords(dev[i], bufs[i], n, c);
      i := i + 1;
    }
  }

  /** What the call does to the words of the buffers. */
  method EncodeBuffers(F: Field, k: nat, m: nat, matrix: array<nat>, ins: seq<array<Byte>>, outs: seq<array<Byte>>, n: nat, c: nat)
    requires c >= 1 && F.w == 8 * c && WordSize(F.w) && matrix.Length == Base(m, k) && |ins| == k && |outs| == m
    requires ByteBuffers(ins, n) && ByteBuffers(outs, n) && (forall i, j :: 0 <= i < k && 0 <= j < m ==> ins[i] != outs[j])
    requires forall j :: 0 <= j < m ==> (matrix as object) != outs[j]
    modifies outs
    ensures matrix[..] == old(matrix[..]) && WordView(ins, n, c) == old(WordView(ins, n, c))
    ensures EncodedTo(F, Rows(matrix[..], m, k), k, m, old(WordView(ins, n, c) + WordView(outs, n, c)), WordView(ins, n, c) + WordView(outs, n, c), m, Whole(n, c))
  {
    hide *;
    ghost var I, O := WordView(ins, n, c), WordView(outs, n, c);
    WordViewContents(F, ins, outs, n, c, I + O);
    var front := LoadAll(ins, n, c);
    var back := LoadAll(outs, n, c);
    EncodeParts(F, k, m, matrix, front, back, Whole(n, c), c, I, O);
    ghost var B := View(back);
    StoreAll(back, outs, n, c);
    assert WordView(outs, n, c) == B && WordView(ins, n, c) == I;
  }

  /** The words in two groups of arrays, data and parity. */
  method EncodeParts(F: Field, k: nat, m: nat, matrix: array<nat>, front: seq<array<nat>>, back: seq<array<nat>>, size: nat, c: nat,
      ghost I: seq<Row>, ghost O: seq<Row>)
    requires F.w >= 1 && WordSize(F.w) && F.w == 8 * c && matrix.Length == Base(m, k) && |front| == k && |back| == m
    requires matrix !in front && matrix !in back && Buffers(front, size) && Buffers(back, size)
    requires forall i, j :: 0 <= i < |front| && 0 <= j < |back| ==> front[i] != back[j]
    requires I == View(front) && O == View(back) && Contents(F, I + O, k + m, size)
    modifies front, back
    ensures matrix[..] == old(matrix[..]) && EncodedTo(F, Rows(matrix[..], m, k), k, m, I + O, I + View(back), m, size)
    ensures forall i, p :: 0 <= i < |back| && 0 <= p < back[i].Length ==> back[i][p] < Pow2(8 * c)
  {
    hide *;
    TwoParts(F, k, m, matrix, front, back, size);
    EncodeLoaded(F, k, m, matrix, front + back, size, c, I + O);
    EncodedKeeps(F, Rows(matrix[..], m, k), k, m, I + O, View(front + back), size);
    BackBounds(front, back, Pow2(8 * c));
    BackView(View(front + back), I, View(back), k);
  }

  lemma TwoParts(F: Field, k: nat, m: nat, matrix: array<nat>, front: seq<array<nat>>, back: seq<array<nat>>, size: nat)
    requires F.w >= 1 && matrix.Length == Base(m, k) && |front| == k && |back| == m && matrix !in front && matrix !in back
    requires Buffers(front, size) && Buffers(back, size) && forall i, j :: 0 <= i < |front| && 0 <= j < |back| ==> front[i] != back[j]
    ensures Encodable(F, k, m, matrix, front + back, size) && View(front + back) == View(front) + View(back)
  {
  }

  lemma BackBounds(front: seq<array<nat>>, back: seq<array<nat>>, bound: nat)
    requires forall i, p :: 0 <= i < |front + back| && 0 <= p < (front + back)[i].Length ==> (front + back)[i][p] < bound
    ensures forall i, p :: 0 <= i < |back| && 0 <= p < back[i].Length ==> back[i][p] < bound
  {
    forall i, p | 0 <= i < |back| && 0 <= p < back[i].Length ensures back[i][p] < bound { assert (front + back)[|front| + i] == back[i]; }
  }

  lemma BackView(E: seq<Row>, I: seq<Row>, back: seq<Row>, k: nat)
    requires |I| == k && |E| == k + |back| && (forall d: nat :: d < k ==> E[d] == I[d]) && forall d: nat :: d < |back| ==> E[k + d] == back[d]
    ensures E == I + back
  {
    forall d: nat | d < |E| ensures E[d] == (I + back)[d] {
      if d >= k { assert E[k + (d - k)] == back[d - k]; }
    }
  }

  /** The words are encoded, and stay words of `c` bytes. */
  method EncodeLoaded(F: Field, k: nat, m: nat, matrix: array<nat>, dev: seq<array<nat>>, size: nat, c: nat, ghost D: seq<Row>)
    requires Encodable(F, k, m, matrix, dev, size) && WordSize(F.w) && F.w == 8 * c && D == View(dev) && Contents(F, D, k + m, size)
    modifies dev
    ensures matrix[..] == old(matrix[..]) && EncodedTo(F, Rows(matrix[..], m, k), k, m, D, View(dev), m, size)
    ensures forall i, p :: 0 <= i < |dev| && 0 <= p < dev[i].Length ==> dev[i][p] < Pow2(8 * c)
  {
    hide Base, Pow2, EncodedTo, Rows, Contents;
    MatrixEncode(F, k, m, matrix, dev, size);
    EncodedContents(F, Rows(matrix[..], m, k), k, m, D, View(dev), size);
    forall i, p | 0 <= i < |dev| && 0 <= p < dev[i].Length ensures dev[i][p] < Pow2(8 * c) {
      WordBound(F, View(dev), k + m, size, i, p);
      assert View(dev)[i][p] == dev[i][p];
    }
  }

  lemma WordViewContents(F: Field, ins: seq<array<Byte>>, outs: seq<array<Byte>>, n: nat, c: nat, D: seq<Row>)
    requires c >= 1 && F.w == 8 * c && ByteBuffers(ins, n) && ByteBuffers(outs, n) && D == WordView(ins, n, c) + WordView(outs, n, c)
    ensures Contents(F, D, |ins| + |outs|, Whole(n, c))
  {
    hide Base, Whole, Words;
    forall i | 0 <= i < |D| ensures Vec(F, D[i], Whole(n, c)) {
      WordsAreElements(F, if i < |ins| then ins[i][..n] else outs[i - |ins|][..n], c);
    }
  }

  lemma EncodedKeeps(F: Field, C: seq<Row>, k: nat, m: nat, D: seq<Row>, E: seq<Row>, size: nat)
    requires EncodedTo(F, C, k, m, D, E, m, size)
    ensures |D| == |E| == k + m && forall d: nat :: d < k ==> E[d] == D[d]
  {
  }

  lemma WordBound(F: Field, E: seq<Row>, n: nat, size: nat, i: nat, p: nat)
    requires Contents(F, E, n, size) && i < n && p < size
    ensures |E| == n && |E[i]| == size && E[i][p] < Pow2(F.w)
  {
    assert Vec(F, E[i], size);
  }

  // ----- encoding a striped round

  /** The coding matrix and the word size of the store. */
  ghost predicate Coder(F: Field, k: nat, m: nat, c: nat, matrix: array<nat>)
    reads matrix
  {
    c >= 1 && F.w == 8 * c && WordSize(F.w) && matrix.Length == Base(m, k) && Matrix(F, Rows(matrix[..], m, k), m, k)
  }

  /** The buffers of a round are usable. */
  ghost predicate RoundBuffers(wb: WorkerBuf, matrix: array<nat>, k: nat, m: nat, n: nat) {
    && |wb.inputBufs| == k && |wb.outputBufs| == m && ByteBuffers(wb.inputBufs, n) && ByteBuffers(wb.outputBufs, n)
    && (forall i, j :: 0 <= i < k && 0 <= j < m ==> wb.inputBufs[i] != wb.outputBufs[j])
    && forall j :: 0 <= j < m ==> (matrix as object) != wb.outputBufs[j] && (wb.inputWritedSize as object) != wb.outputBufs[j]
  }

  /** `performEncodingJob` for one round: what `copyDataToInputBufs` left becomes a round of the code. */
  method PerformEncodingJob(F: Field, k: nat, m: nat, s: nat, c: nat, matrix: array<nat>, wb: WorkerBuf, ghost data: seq<Byte>)
    requires k >= 1 && s >= 1 && Base(k, s) >= 1 && Coder(F, k, m, c, matrix) && RoundBuffers(wb, matrix, k, m, wb.codingSize)
    requires wb.inputWritedSize.Length == k && Striped(data, k, s, wb.inputBufs, wb.inputWritedSize)
    requires wb.codingSize == CodingSize(|data|, k, s) && Rest(wb.codingSize, c) == 0
    requires forall b, i :: 0 <= b < m && 0 <= i < wb.codingSize ==> wb.outputBufs[b][i] == 0
    modifies wb.outputBufs
    ensures matrix[..] == old(matrix[..]) && Striped(data, k, s, wb.inputBufs, wb.inputWritedSize)
    ensures Round(F, Rows(matrix[..], m, k), k, m, s, c, data,
                  WordView(wb.inputBufs, wb.codingSize, c) + WordView(wb.outputBufs, wb.codingSize, c))
  {
    hide *;
    var n := wb.codingSize;
    BuffersApart(wb, matrix, k, m, n);
    CoderFacts(F, k, m, c, matrix);
    ghost var I, O := WordView(wb.inputBufs, n, c), WordView(wb.outputBufs, n, c);
    InputsArePadded(wb, data, k, s, c);
    OutputsAreZero(wb, m, c);
    WordViewContents(F, wb.inputBufs, wb.outputBufs, n, c, I + O);
    EncodeBuffers(F, k, m, matrix, wb.inputBufs, wb.outputBufs, n, c);
    ghost var E := WordView(wb.inputBufs, n, c) + WordView(wb.outputBufs, n, c);
    RoundMade(F, Rows(matrix[..], m, k), k, m, s, c, data, I, O, E);
    FrameStriped(wb, data, k, s);
  }

  lemma BuffersApart(wb: WorkerBuf, matrix: array<nat>, k: nat, m: nat, n: nat)
    requires RoundBuffers(wb, matrix, k, m, n)
    ensures |wb.inputBufs| == k && |wb.outputBufs| == m && ByteBuffers(wb.inputBufs, n) && ByteBuffers(wb.outputBufs, n)
    ensures forall i, j :: 0 <= i < k && 0 <= j < m ==> wb.inputBufs[i] != wb.outputBufs[j]
    ensures forall j :: 0 <= j < m ==> (matrix as object) != wb.outputBufs[j] && (wb.inputWritedSize as object) != wb.outputBufs[j]
  {
  }

  lemma CoderFacts(F: Field, k: nat, m: nat, c: nat, matrix: array<nat>)
    requires Coder(F, k, m, c, matrix)
    ensures c >= 1 && F.w == 8 * c && F.w >= 1 && WordSize(F.w) && matrix.Length == Base(m, k) && Matrix(F, Rows(matrix[..], m, k), m, k)
  {
  }

  lemma InputsArePadded(wb: WorkerBuf, data: seq<Byte>, k: nat, s: nat, c: nat)
    requires k >= 1 && s >= 1 && c >= 1 && Base(k, s) >= 1 && |wb.inputBufs| == k == wb.inputWritedSize.Length
    requires ByteBuffers(wb.inputBufs, wb.codingSize) && wb.codingSize == CodingSize(|data|, k, s)
    requires Striped(data, k, s, wb.inputBufs, wb.inputWritedSize)
    ensures forall b: nat :: b < k ==> WordView(wb.inputBufs, wb.codingSize, c)[b] == Words(PaddedBlock(data, k, s, b), c)
  {
    hide Base, Words, PaddedBlock, CodingSize, Striped;
    forall b: nat | b < k ensures WordView(wb.inputBufs, wb.codingSize, c)[b] == Words(PaddedBlock(data, k, s, b), c) {
      StripedIsPadded(data, k, s, wb.inputBufs, wb.inputWritedSize, b);
    }
  }

  lemma OutputsAreZero(wb: WorkerBuf, m: nat, c: nat)
    requires c >= 1 && |wb.outputBufs| == m && ByteBuffers(wb.outputBufs, wb.codingSize)
    requires forall b, i :: 0 <= b < m && 0 <= i < wb.codingSize ==> wb.outputBufs[b][i] == 0
    ensures forall b: nat :: b < m ==> IsZero(WordView(wb.outputBufs, wb.codingSize, c)[b])
  {
    hide Base, Whole, Word;
    forall b: nat | b < m ensures IsZero(WordView(wb.outputBufs, wb.codingSize, c)[b]) {
      var bytes := wb.outputBufs[b][..wb.codingSize];
      forall i: nat | i < Whole(|bytes|, c) ensures Words(bytes, c)[i] == 0 {
        WordInside(|bytes|, c, i);
        ZeroWord(bytes[Base(i, c)..Base(i, c) + c]);
      }
    }
  }

  lemma {:induction false} ZeroWord(bytes: seq<Byte>)
    requires forall i :: 0 <= i < |bytes| ==> bytes[i] == 0
    ensures Word(bytes) == 0
  {
    if bytes != [] {
      ZeroWord(bytes[1..]);
      FirstByte(bytes);
    }
  }

  /** Encoded from the padded blocks, with parity buffers that were zero. */
  lemma RoundMade(F: Field, C: seq<Row>, k: nat, m: nat, s: nat, c: nat, data: seq<Byte>, I: seq<Row>, O: seq<Row>, E: seq<Row>)
    requires k >= 1 && s >= 1 && c >= 1 && Base(k, s) >= 1 && F.w == 8 * c && Matrix(F, C, m, k) && Rest(CodingSize(|data|, k, s), c) == 0
    requires |I| == k && |O| == m && Contents(F, I + O, k + m, Whole(CodingSize(|data|, k, s), c))
    requires EncodedTo(F, C, k, m, I + O, E, m, Whole(CodingSize(|data|, k, s), c))
    requires (forall b: nat :: b < k ==> I[b] == Words(PaddedBlock(data, k, s, b), c)) && forall b: nat :: b < m ==> IsZero(O[b])
    ensures Round(F, C, k, m, s, c, data, E)
  {
    hide Base, Whole, Rest, Matrix, Contents, EncodedTo, Codeword, Words, PaddedBlock, CodingSize, IsZero, HasNonzero;
    EncodedIsCodeword(F, C, k, m, I + O, E, Whole(CodingSize(|data|, k, s), c));
    EncodedKeeps(F, C, k, m, I + O, E, Whole(CodingSize(|data|, k, s), c));
    assert forall r: nat :: r < m ==> (I + O)[k + r] == O[r];
  }

  lemma FrameStriped(wb: WorkerBuf, data: seq<Byte>, k: nat, s: nat)
    requires k >= 1 && s >= 1 && Base(k, s) >= 1 && |wb.inputBufs| == k == wb.inputWritedSize.Length
    requires Striped(data, k, s, wb.inputBufs, wb.inputWritedSize)
    ensures Striped(data, k, s, wb.inputBufs, wb.inputWritedSize)
  {
  }

  // ----- rebuilding the lost blocks

  /** The input buffers hold the survivors of the round, in the order of `dmIds`. */
  ghost predicate HoldSurvivors(wb: WorkerBuf, D: seq<Row>, dmIds: seq<nat>, k: nat, n: nat, c: nat)
    reads wb.inputBufs
  {
    && c >= 1 && |wb.inputBufs| == |dmIds| == k && ByteBuffers(wb.inputBufs, n)
    && forall j :: 0 <= j < k ==> dmIds[j] < |D| && WordView(wb.inputBufs, n, c)[j] == D[dmIds[j]]
  }

  /** `performDecodingJob` for one round: after it, output buffer `r` is lost block `mat_idx[r]`, byte for
      byte, zeros of the padding included. */
  method PerformDecodingJob(F: Field, k: nat, m: nat, s: nat, c: nat, dec: array<nat>, wb: WorkerBuf, ghost C: seq<Row>, ghost data: seq<Byte>,
      ghost D: seq<Row>, ghost erasures: seq<nat>, ghost matIdx: seq<nat>, ghost dmIds: seq<nat>)
    requires Round(F, C, k, m, s, c, data, D) && WordSize(F.w) && dec.Length == Base(m, k)
    requires (forall i :: 0 <= i < |erasures| ==> erasures[i] < k) && Rebuilding(F, C, k, m, erasures, matIdx, dmIds, Rows(dec[..], m, k))
    requires wb.codingSize == CodingSize(|data|, k, s) && RoundBuffers(wb, dec, k, m, wb.codingSize)
    requires HoldSurvivors(wb, D, dmIds, k, wb.codingSize, c)
    modifies wb.outputBufs
    ensures forall r: nat :: r < |LostIds(Flags(erasures, k + m))| ==>
      r < m && r < |matIdx| && matIdx[r] < k && wb.outputBufs[r][..wb.codingSize] == PaddedBlock(data, k, s, matIdx[r])
  {
    hide *;
    var n := wb.codingSize;
    BuffersApart(wb, dec, k, m, n);
    RoundFacts(F, C, k, m, s, c, data, D);
    SurvivorFacts(wb, D, dmIds, k, n, c);
    ghost var I, O := WordView(wb.inputBufs, n, c), WordView(wb.outputBufs, n, c);
    EncodeBuffers(F, k, m, dec, wb.inputBufs, wb.outputBufs, n, c);
    ghost var E := WordView(wb.inputBufs, n, c) + WordView(wb.outputBufs, n, c);
    LostBound(F, C, k, m, erasures, matIdx, dmIds, Rows(dec[..], m, k));
    forall r: nat | r < |LostIds(Flags(erasures, k + m))|
      ensures r < m && r < |matIdx| && matIdx[r] < k && wb.outputBufs[r][..n] == PaddedBlock(data, k, s, matIdx[r])
    {
      assert E[k + r] == Words(wb.outputBufs[r][..n], c);
      OutputIsBlock(F, C, k, m, s, c, data, D, erasures, matIdx, dmIds, Rows(dec[..], m, k), I, I + O, E, r, wb.outputBufs[r][..n]);
    }
  }

  lemma RoundFacts(F: Field, C: seq<Row>, k: nat, m: nat, s: nat, c: nat, data: seq<Byte>, D: seq<Row>)
    requires Round(F, C, k, m, s, c, data, D)
    ensures k >= 1 && s >= 1 && c >= 1 && Base(k, s) >= 1 && F.w == 8 * c && F.w >= 1
  {
  }

  lemma SurvivorFacts(wb: WorkerBuf, D: seq<Row>, dmIds: seq<nat>, k: nat, n: nat, c: nat)
    requires HoldSurvivors(wb, D, dmIds, k, n, c)
    ensures c >= 1 && |wb.inputBufs| == |dmIds| == k && ByteBuffers(wb.inputBufs, n)
    ensures forall j :: 0 <= j < k ==> dmIds[j] < |D| && WordView(wb.inputBufs, n, c)[j] == D[dmIds[j]]
  {
  }

  lemma LostBound(F: Field, C: seq<Row>, k: nat, m: nat, erasures: seq<nat>, matIdx: seq<nat>, dmIds: seq<nat>, dec: seq<Row>)
    requires F.w >= 1 && Rebuilding(F, C, k, m, erasures, matIdx, dmIds, dec)
    ensures |LostIds(Flags(erasures, k + m))| <= m && |LostIds(Flags(erasures, k + m))| <= |matIdx|
  {
  }

  /** A row of the decoding matrix that is in use is not zero. */
  lemma RowInUse(F: Field, C: seq<Row>, k: nat, m: nat, erasures: seq<nat>, matIdx: seq<nat>, dmIds: seq<nat>, dec: seq<Row>, r: nat)
    requires F.w >= 1 && (forall i :: 0 <= i < |erasures| ==> erasures[i] < k) && Rebuilding(F, C, k, m, erasures, matIdx, dmIds, dec)
    requires r < |LostIds(Flags(erasures, k + m))|
    ensures r < |dec| && HasNonzero(dec[r])
  {
    hide LeftInverse, Alive;
    var e := Flags(erasures, k + m);
    var d := LostIds(e)[r];
    assert e[d] && d in erasures;
    var inv :| Decodes(F, C, k, m, dmIds, inv) && Copied(dec, inv, LostIds(e), |LostIds(e)|);
    InverseRowNonzero(F, inv, SurvivorMatrix(C, k, dmIds), k, d);
  }

  lemma OutputIsBlock(F: Field, C: seq<Row>, k: nat, m: nat, s: nat, c: nat, data: seq<Byte>, D: seq<Row>, erasures: seq<nat>,
      matIdx: seq<nat>, dmIds: seq<nat>, dec: seq<Row>, I: seq<Row>, J: seq<Row>, E: seq<Row>, r: nat, out: seq<Byte>)
    requires Round(F, C, k, m, s, c, data, D) && |dec| == m && |dmIds| == k <= |J| && |I| == k && J[..k] == I
    requires (forall i :: 0 <= i < |erasures| ==> erasures[i] < k) && Rebuilding(F, C, k, m, erasures, matIdx, dmIds, dec)
    requires (forall j :: 0 <= j < k ==> dmIds[j] < |D| && I[j] == D[dmIds[j]]) && r < |LostIds(Flags(erasures, k + m))| <= m
    requires EncodedTo(F, dec, k, m, J, E, m, Whole(CodingSize(|data|, k, s), c)) && |out| == CodingSize(|data|, k, s) && E[k + r] == Words(out, c)
    ensures r < |matIdx| && matIdx[r] < k && out == PaddedBlock(data, k, s, matIdx[r])
  {
    hide Base, Whole, Rest, Codeword, Matrix, Combine, PaddedBlock, CodingSize, Word, Words, LostIds, HasNonzero, Rebuilding, Column;
    var size := Whole(CodingSize(|data|, k, s), c);
    LostBound(F, C, k, m, erasures, matIdx, dmIds, dec);
    RowInUse(F, C, k, m, erasures, matIdx, dmIds, dec, r);
    LostBlockReturns(F, C, k, m, s, c, data, D, erasures, matIdx, dmIds, dec, r, out);
    assert E[k + r] == WithRow(F, dec[r], k, r, J, size)[k + r];
    forall j | 0 <= j < k ensures J[DataIds(k)[j]] == D[dmIds[j]] { assert J[..k][j] == I[j]; }
    CombineThrough(F, dec[r], J, DataIds(k), D, dmIds, size);
  }

  /** Equal sources give equal combinations. */
  lemma CombineThrough(F: Field, row: Row, J: seq<Row>, a: seq<nat>, D: seq<Row>, b: seq<nat>, size: nat)
    requires F.w >= 1 && |row| == |a| == |b| && Sources(J, a, size) && Sources(D, b, size) && forall j :: 0 <= j < |a| ==> J[a[j]] == D[b[j]]
    ensures Combine(F, row, J, a, size) == Combine(F, row, D, b, size)
  {
    forall p: nat | p < size ensures Column(J, a, p) == Column(D, b, p) { }
  }
}
