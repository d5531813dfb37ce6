/** `copyDataToInputBufs`: the client's write path.  The buffer is dealt out to the input buffers of
    the k data blocks, the last stripe is padded with zeros, and the size to encode is set. */
module StripeWrite {
  import opened Bytes
  import opened RowMajor
  import opened Striping

  class ECFile {
    const buf: array<Byte>
    const stripeK: nat
    const streamingSize: nat
    var bufSize: nat
    var bufHandledSize: nat

    constructor (buf: array<Byte>, stripeK: nat, streamingSize: nat)
      ensures this.buf == buf && this.stripeK == stripeK && this.streamingSize == streamingSize
      ensures bufSize == buf.Length && bufHandledSize == 0
    {
      this.buf, this.stripeK, this.streamingSize := buf, stripeK, streamingSize;
      bufSize, bufHandledSize := buf.Length, 0;
    }

    ghost predicate Valid()
      reads this
    {
      stripeK >= 1 && streamingSize >= 1 && bufHandledSize <= bufSize <= buf.Length
    }
  }

  class WorkerBuf {
    const inputBufs: seq<array<Byte>>
    const outputBufs: seq<array<Byte>>
    const inputWritedSize: array<nat>
    const alignedBufSize: nat
    var codingSize: nat

    constructor (inputBufs: seq<array<Byte>>, outputBufs: seq<array<Byte>>, alignedBufSize: nat)
      ensures this.inputBufs == inputBufs && this.outputBufs == outputBufs && this.alignedBufSize == alignedBufSize && codingSize == 0
      ensures fresh(inputWritedSize) && inputWritedSize.Length == |inputBufs| && forall b :: 0 <= b < |inputBufs| ==> inputWritedSize[b] == 0
    {
      this.inputBufs, this.outputBufs, this.alignedBufSize := inputBufs, outputBufs, alignedBufSize;
      inputWritedSize := new nat[|inputBufs|](_ => 0);
      codingSize := 0;
    }

    /** All buffers are there, and no two are the same. */
    ghost predicate Valid() {
      && inputWritedSize.Length == |inputBufs|
      && (forall b :: 0 <= b < |inputBufs| ==> inputBufs[b].Length >= alignedBufSize && (inputBufs[b] as object) != inputWritedSize)
      && (forall b :: 0 <= b < |outputBufs| ==>
            outputBufs[b].Length >= alignedBufSize && outputBufs[b] !in inputBufs && (outputBufs[b] as object) != inputWritedSize)
      && (forall a, b :: 0 <= a < b < |inputBufs| ==> inputBufs[a] != inputBufs[b])
      && (forall a, b :: 0 <= a < b < |outputBufs| ==> outputBufs[a] != outputBufs[b])
    }
  }

  /** The user's buffer is none of the worker's. */
  ghost predicate Separate(file: ECFile, wb: WorkerBuf) {
    file.buf !in wb.inputBufs && file.buf !in wb.outputBufs && (file.buf as object) != wb.inputWritedSize
    && |wb.inputBufs| == file.stripeK
  }

  /** One block: its lane, and zeros from there up to `end`. */
  ghost predicate Holds(content: seq<Byte>, written: nat, lane: seq<Byte>, end: nat) {
    && written == |lane| <= end <= |content|
    && content[..written] == lane && forall i :: written <= i < end ==> content[i] == 0
  }

  /** The blocks hold `data`, padded to the coding size. */
  ghost predicate Striped(data: seq<Byte>, k: nat, s: nat, bufs: seq<array<Byte>>, written: array<nat>)
    requires k >= 1 && s >= 1 && |bufs| == k == written.Length && Base(k, s) >= 1
    reads bufs, written
  {
    forall b: nat :: b < k ==> Holds(bufs[b][..], written[b], Lane(data, k, s, b), CodingSize(|data|, k, s))
  }

  method CopyBytes(dst: array<Byte>, at: nat, src: array<Byte>, from: nat, n: nat)
    requires dst != src && at + n <= dst.Length && from + n <= src.Length
    modifies dst
    ensures dst[..] == old(dst[..at]) + src[from..from + n] + old(dst[at + n..])
  {
    var i: nat := 0;
    while i < n
      invariant i <= n && (forall j :: at <= j < at + i ==> dst[j] == src[j - at + from])
      invariant forall j :: 0 <= j < dst.Length && !(at <= j < at + i) ==> dst[j] == old(dst[j])
    {
      dst[at + i] := src[from + i];
      i := i + 1;
    }
  }

  method ClearBytes(dst: array<Byte>, at: nat, n: nat)
    requires at + n <= dst.Length
    modifies dst
    ensures forall i :: at <= i < at + n ==> dst[i] == 0
    ensures forall i :: 0 <= i < dst.Length && !(at <= i < at + n) ==> dst[i] == old(dst[i])
  {
    var i: nat := 0;
    while i < n
      invariant i <= n && (forall j :: at <= j < at + i ==> dst[j] == 0)
      invariant forall j :: 0 <= j < dst.Length && !(at <= j < at + i) ==> dst[j] == old(dst[j])
    {
      dst[at + i] := 0;
      i := i + 1;
    }
  }

  /** `memcpy` of the next `n` bytes to the end of block `idx`. */
  method Append(file: ECFile, wb: WorkerBuf, idx: nat, n: nat, ghost lane: seq<Byte>)
    requires file.Valid() && wb.Valid() && idx < |wb.inputBufs| && Separate(file, wb)
    requires Holds(wb.inputBufs[idx][..], wb.inputWritedSize[idx], lane, |lane|)
    requires |lane| + n <= wb.alignedBufSize && file.bufHandledSize + n <= file.bufSize
    modifies file`bufHandledSize, wb.inputWritedSize, wb.inputBufs[idx]
    ensures file.Valid() && file.bufHandledSize == old(file.bufHandledSize) + n && file.buf[..] == old(file.buf[..])
    ensures Holds(wb.inputBufs[idx][..], wb.inputWritedSize[idx], lane + file.buf[old(file.bufHandledSize)..file.bufHandledSize], |lane| + n)
    ensures forall b :: 0 <= b < wb.inputWritedSize.Length && b != idx ==> wb.inputWritedSize[b] == old(wb.inputWritedSize[b])
  {
    ghost var c, w, content := wb.inputBufs[idx][..], |lane|, file.buf[..];
    ghost var piece := file.buf[file.bufHandledSize..file.bufHandledSize + n];
    CopyBytes(wb.inputBufs[idx], wb.inputWritedSize[idx], file.buf, file.bufHandledSize, n);
    assert wb.inputBufs[idx][..w + n] == c[..w] + piece;
    wb.inputWritedSize[idx] := wb.inputWritedSize[idx] + n;
    file.bufHandledSize := file.bufHandledSize + n;
    assert file.buf[..] == content;
    assert piece == content[old(file.bufHandledSize)..file.bufHandledSize];
  }

  /** The last stripe: append what there is of the piece, clear the rest. */
  method AppendPadded(file: ECFile, wb: WorkerBuf, idx: nat, ghost lane: seq<Byte>)
    requires file.Valid() && wb.Valid() && idx < |wb.inputBufs| && Separate(file, wb)
    requires Holds(wb.inputBufs[idx][..], wb.inputWritedSize[idx], lane, |lane|) && |lane| + file.streamingSize <= wb.alignedBufSize
    modifies file`bufHandledSize, wb.inputWritedSize, wb.inputBufs[idx]
    ensures file.Valid() && file.bufHandledSize == Min(old(file.bufHandledSize) + file.streamingSize, file.bufSize)
    ensures file.buf[..] == old(file.buf[..])
    ensures Holds(wb.inputBufs[idx][..], wb.inputWritedSize[idx],
                  lane + file.buf[old(file.bufHandledSize)..file.bufHandledSize], |lane| + file.streamingSize)
    ensures forall b :: 0 <= b < wb.inputWritedSize.Length && b != idx ==> wb.inputWritedSize[b] == old(wb.inputWritedSize[b])
  {
    ghost var content := file.buf[..];
    var rest := file.bufSize - file.bufHandledSize;
    var cpSize := if file.streamingSize < rest then file.streamingSize else rest;
    if cpSize > 0 {
      Append(file, wb, idx, cpSize, lane);
    } else {
      assert lane + content[file.bufHandledSize..file.bufHandledSize] == lane;
    }
    ghost var more := lane + content[old(file.bufHandledSize)..file.bufHandledSize];
    assert Holds(wb.inputBufs[idx][..], wb.inputWritedSize[idx], more, |more|);
    if cpSize < file.streamingSize {
      ClearRest(file, wb, idx, file.streamingSize - cpSize, more);
    }
  }

  /** `memset` behind the bytes of block `idx`. */
  method ClearRest(file: ECFile, wb: WorkerBuf, idx: nat, n: nat, ghost lane: seq<Byte>)
    requires wb.Valid() && idx < |wb.inputBufs| && Separate(file, wb)
    requires Holds(wb.inputBufs[idx][..], wb.inputWritedSize[idx], lane, |lane|) && |lane| + n <= wb.alignedBufSize
    modifies wb.inputBufs[idx]
    ensures Holds(wb.inputBufs[idx][..], wb.inputWritedSize[idx], lane, |lane| + n) && file.buf[..] == old(file.buf[..])
    ensures wb.inputWritedSize[..] == old(wb.inputWritedSize[..])
  {
    ghost var c := wb.inputBufs[idx][..];
    ClearBytes(wb.inputBufs[idx], wb.inputWritedSize[idx], n);
    assert wb.inputBufs[idx][..|lane|] == c[..|lane|];
  }

  // ----- one stripe

  /** `j` whole stripes are in the blocks. */
  lemma WholeStripes(data: seq<Byte>, k: nat, s: nat, b: nat, j: nat)
    requires k >= 1 && s >= 1 && b < k && |data| == Base(j, Base(k, s))
    ensures Base(k, s) >= 1 && |Lane(data, k, s, b)| == CodingSize(|data|, k, s) == Base(j, s)
  {
    hide Base, Whole, Rest, Lane;
    StripePositive(k, s);
    LaneLength(data, k, s, b);
    WholeIs(|data|, Base(k, s), j, 0);
  }

  /** One more stripe, whole or not. */
  lemma OneStripe(data: seq<Byte>, more: seq<Byte>, k: nat, s: nat, b: nat, j: nat)
    requires k >= 1 && s >= 1 && b < k && |data| == Base(j, Base(k, s)) && 0 < |more| <= Base(k, s)
    ensures Base(k, s) >= 1 && CodingSize(|data + more|, k, s) == Base(j, s) + s
    ensures Lane(data + more, k, s, b) == Lane(data, k, s, b) + Piece(more, s, b)
    ensures |more| == Base(k, s) ==> |data + more| == Base(j + 1, Base(k, s))
  {
    hide Base, Whole, Rest, Lane;
    var t := Base(k, s);
    StripePositive(k, s);
    LaneConcat(data, more, k, s, b, j);
    BaseStep(j, t);
    BaseStep(j, s);
    if |more| == t {
      BaseBefore(b, k, s);
      LaneStep(more, k, s, b);
      assert more[t..] == [];
      LaneNone(more[t..], k, s, b);
      assert Piece(more, s, b) == more[Base(b, s)..Base(b, s) + s];
      assert Piece(more, s, b) + [] == Piece(more, s, b);
      WholeIs(|data + more|, t, j + 1, 0);
    } else {
      LaneEnd(more, k, s, b);
      WholeIs(|data + more|, t, j, |more|);
    }
  }

  /** In the middle of a stripe: the blocks before `idx` have their piece. */
  ghost predicate Dealing(data: seq<Byte>, more: seq<Byte>, k: nat, s: nat, bufs: seq<array<Byte>>, written: array<nat>, w: nat, idx: nat)
    requires k >= 1 && s >= 1 && |bufs| == k == written.Length
    reads bufs, written
  {
    && (forall b: nat :: b < idx && b < k ==> Holds(bufs[b][..], written[b], Lane(data, k, s, b) + Piece(more, s, b), w + s))
    && (forall b: nat :: idx <= b < k ==> Holds(bufs[b][..], written[b], Lane(data, k, s, b), w))
  }

  /** The piece that block `idx` gets, cut out of the buffer. */
  lemma PieceOfBuffer(buf: seq<Byte>, from: nat, size: nat, k: nat, s: nat, idx: nat)
    requires from <= size <= |buf| && idx < k && s >= 1
    ensures Base(idx, s) + s == Base(idx + 1, s) <= Base(k, s)
    ensures var to := Min(from + Base(k, s), size);
      Piece(buf[from..to], s, idx) == buf[Min(from + Base(idx, s), size)..Min(from + Base(idx, s) + s, size)]
  {
    hide Base;
    BaseBefore(idx, k, s);
    BaseStep(idx, s);
  }

  /** Deal out one stripe. */
  method CopyStripe(file: ECFile, wb: WorkerBuf, ghost data: seq<Byte>, ghost j: nat)
    requires file.Valid() && wb.Valid() && Separate(file, wb) && file.bufHandledSize < file.bufSize
    requires |data| == Base(j, Base(file.stripeK, file.streamingSize)) && Base(file.stripeK, file.streamingSize) >= 1
    requires Base(j, file.streamingSize) + file.streamingSize <= wb.alignedBufSize
    requires Striped(data, file.stripeK, file.streamingSize, wb.inputBufs, wb.inputWritedSize)
    modifies file`bufHandledSize, wb.inputWritedSize, wb.inputBufs
    ensures file.Valid() && file.buf[..] == old(file.buf[..])
    ensures file.bufHandledSize == Min(old(file.bufHandledSize) + Base(file.stripeK, file.streamingSize), file.bufSize)
    ensures Striped(data + file.buf[old(file.bufHandledSize)..file.bufHandledSize], file.stripeK, file.streamingSize, wb.inputBufs, wb.inputWritedSize)
  {
    hide Base, Lane, Piece, CodingSize, Dealing, Striped, Holds;
    var k, s, eachAlignedSize := file.stripeK, file.streamingSize, Base(file.stripeK, file.streamingSize);
    ghost var from, content := file.bufHandledSize, file.buf[..];
    ghost var w, to := Base(j, s), Min(from + eachAlignedSize, file.bufSize);
    ghost var more := content[from..to];
    StartDealing(data, more, k, s, wb.inputBufs, wb.inputWritedSize, j);
    BaseStep(0, s);
    var whole := file.bufSize - file.bufHandledSize >= eachAlignedSize;
    var idx: nat := 0;
    while idx < k
      invariant idx <= k && file.Valid() && file.buf[..] == content && Base(idx, s) <= eachAlignedSize
      invariant file.bufHandledSize == Min(from + Base(idx, s), file.bufSize)
      invariant Dealing(data, more, k, s, wb.inputBufs, wb.inputWritedSize, w, idx)
    {
      WholeStripes(data, k, s, idx, j);
      PieceOfBuffer(content, from, file.bufSize, k, s, idx);
      DealStep(file, wb, data, more, whole, idx, w, content, from);
      idx := idx + 1;
    }
    EndDealing(data, more, k, s, wb.inputBufs, wb.inputWritedSize, j);
  }

  /** The piece of one block. */
  method DealStep(file: ECFile, wb: WorkerBuf, ghost data: seq<Byte>, ghost more: seq<Byte>, whole: bool, idx: nat, ghost w: nat,
      ghost content: seq<Byte>, ghost from: nat)
    requires file.Valid() && wb.Valid() && Separate(file, wb) && idx < file.stripeK && content == file.buf[..] && from < file.bufSize
    requires w + file.streamingSize <= wb.alignedBufSize && |Lane(data, file.stripeK, file.streamingSize, idx)| == w
    requires file.bufHandledSize == Min(from + Base(idx, file.streamingSize), file.bufSize)
    requires Piece(more, file.streamingSize, idx) == content[file.bufHandledSize..Min(from + Base(idx, file.streamingSize) + file.streamingSize, file.bufSize)]
    requires whole ==> from + Base(idx, file.streamingSize) + file.streamingSize <= file.bufSize
    requires Dealing(data, more, file.stripeK, file.streamingSize, wb.inputBufs, wb.inputWritedSize, w, idx)
    modifies file`bufHandledSize, wb.inputWritedSize, wb.inputBufs[idx]
    ensures file.Valid() && file.buf[..] == content
    ensures file.bufHandledSize == Min(from + Base(idx, file.streamingSize) + file.streamingSize, file.bufSize)
    ensures Dealing(data, more, file.stripeK, file.streamingSize, wb.inputBufs, wb.inputWritedSize, w, idx + 1)
  {
    hide Base, Lane, Piece, Holds;
    ghost var lane := Lane(data, file.stripeK, file.streamingSize, idx);
    if whole {
      Append(file, wb, idx, file.streamingSize, lane);
    } else {
      AppendPadded(file, wb, idx, lane);
    }
  }

  lemma StartDealing(data: seq<Byte>, more: seq<Byte>, k: nat, s: nat, bufs: seq<array<Byte>>, written: array<nat>, j: nat)
    requires k >= 1 && s >= 1 && |bufs| == k == written.Length && Base(k, s) >= 1 && |data| == Base(j, Base(k, s))
    requires Striped(data, k, s, bufs, written)
    ensures Dealing(data, more, k, s, bufs, written, Base(j, s), 0)
  {
    hide Base, Lane, Piece, CodingSize;
    forall b: nat | b < k ensures Holds(bufs[b][..], written[b], Lane(data, k, s, b), Base(j, s)) { WholeStripes(data, k, s, b, j); }
  }

  lemma EndDealing(data: seq<Byte>, more: seq<Byte>, k: nat, s: nat, bufs: seq<array<Byte>>, written: array<nat>, j: nat)
    requires k >= 1 && s >= 1 && |bufs| == k == written.Length && |data| == Base(j, Base(k, s)) && 0 < |more| <= Base(k, s)
    requires Dealing(data, more, k, s, bufs, written, Base(j, s), k)
    ensures Striped(data + more, k, s, bufs, written)
  {
    hide Base, Lane, Piece, CodingSize, Holds;
    forall b: nat | b < k
      ensures Holds(bufs[b][..], written[b], Lane(data + more, k, s, b), CodingSize(|data + more|, k, s))
    {
      OneStripe(data, more, k, s, b, j);
    }
  }

  // ----- the routine

  /** The size to encode, from what the first block has. */
  lemma CodingFromFirst(data: seq<Byte>, k: nat, s: nat)
    requires k >= 1 && s >= 1
    ensures Base(k, s) >= 1
    ensures var w := |Lane(data, k, s, 0)|;
      CodingSize(|data|, k, s) == if Rest(w, s) == 0 then w else Base(Whole(w, s) + 1, s)
  {
    hide Base, Whole, Rest, Lane;
    StripePositive(k, s);
    LaneLength(data, k, s, 0);
    var t := Base(k, s);
    var q, r := Whole(|data|, t), Rest(|data|, t);
    BaseStep(0, s);
    BaseStep(q, s);
    if r == 0 {
      WholeIs(Base(q, s), s, q, 0);
    } else if r < s {
      WholeIs(Base(q, s) + r, s, q, r);
    } else {
      WholeIs(Base(q + 1, s), s, q + 1, 0);
    }
  }

  method CopyDataToInputBufs(file: ECFile, wb: WorkerBuf) returns (ghost stripes: nat)
    requires file.Valid() && wb.Valid() && Separate(file, wb) && forall b :: 0 <= b < file.stripeK ==> wb.inputWritedSize[b] == 0
    modifies file`bufHandledSize, wb`codingSize, wb.inputWritedSize, wb.inputBufs, wb.outputBufs
    ensures file.Valid() && file.buf[..] == old(file.buf[..]) && old(file.bufHandledSize) <= file.bufHandledSize
    ensures Base(file.stripeK, file.streamingSize) >= 1
    ensures var data := file.buf[old(file.bufHandledSize)..file.bufHandledSize];
      && Striped(data, file.stripeK, file.streamingSize, wb.inputBufs, wb.inputWritedSize)
      && wb.codingSize == CodingSize(|data|, file.stripeK, file.streamingSize) <= wb.alignedBufSize
    ensures file.bufHandledSize < file.bufSize ==> wb.codingSize + file.streamingSize > wb.alignedBufSize
    ensures file.bufHandledSize < file.bufSize ==>
      file.bufHandledSize - old(file.bufHandledSize) == Base(stripes, Base(file.stripeK, file.streamingSize))
    ensures forall b, i :: 0 <= b < |wb.outputBufs| && 0 <= i < wb.codingSize ==> wb.outputBufs[b][i] == 0
  {
    hide Base, Lane, Whole, Rest, Striped, LaneSize, Holds, CodingSize;
    var k, s := file.stripeK, file.streamingSize;
    StripePositive(k, s);
    ghost var from, content := file.bufHandledSize, file.buf[..];
    stripes := 0;
    NothingStriped(k, s, wb);
    BaseStep(0, Base(k, s));
    assert content[from..from] == [];
    while file.bufHandledSize < file.bufSize
      invariant file.Valid() && file.buf[..] == content && from <= file.bufHandledSize
      invariant Striped(content[from..file.bufHandledSize], k, s, wb.inputBufs, wb.inputWritedSize)
      invariant file.bufHandledSize < file.bufSize ==> file.bufHandledSize - from == Base(stripes, Base(k, s))
      invariant CodingSize(file.bufHandledSize - from, k, s) <= wb.alignedBufSize
      decreases file.bufSize - file.bufHandledSize
    {
      ghost var data := content[from..file.bufHandledSize];
      FirstWritten(data, k, s, wb, stripes);
      if wb.alignedBufSize - wb.inputWritedSize[0] < s { break; }
      ghost var h := file.bufHandledSize;
      CopyStripe(file, wb, data, stripes);
      assert data + content[h..file.bufHandledSize] == content[from..file.bufHandledSize];
      OneStripe(data, content[h..file.bufHandledSize], k, s, 0, stripes);
      stripes := stripes + 1;
    }
    ghost var data := content[from..file.bufHandledSize];
    FirstIs(data, k, s, wb);
    CodingFromFirst(data, k, s);
    if Rest(wb.inputWritedSize[0], s) == 0 {
      wb.codingSize := wb.inputWritedSize[0];
    } else {
      wb.codingSize := Base(Whole(wb.inputWritedSize[0], s) + 1, s);
    }
    ClearOutputs(file, wb, data);
  }

  lemma NothingStriped(k: nat, s: nat, wb: WorkerBuf)
    requires k >= 1 && s >= 1 && wb.Valid() && |wb.inputBufs| == k && forall b :: 0 <= b < k ==> wb.inputWritedSize[b] == 0
    ensures Base(k, s) >= 1 && Striped([], k, s, wb.inputBufs, wb.inputWritedSize) && CodingSize(0, k, s) == 0
  {
    StripePositive(k, s);
    BaseStep(0, Base(k, s));
    WholeIs(0, Base(k, s), 0, 0);
    BaseStep(0, s);
  }

  lemma FirstIs(data: seq<Byte>, k: nat, s: nat, wb: WorkerBuf)
    requires k >= 1 && s >= 1 && wb.Valid() && |wb.inputBufs| == k && Base(k, s) >= 1
    requires Striped(data, k, s, wb.inputBufs, wb.inputWritedSize)
    ensures wb.inputWritedSize[0] == |Lane(data, k, s, 0)| <= CodingSize(|data|, k, s)
  {
    hide Base, Lane, CodingSize;
    assert Holds(wb.inputBufs[0][..], wb.inputWritedSize[0], Lane(data, k, s, 0), CodingSize(|data|, k, s));
  }

  lemma FirstWritten(data: seq<Byte>, k: nat, s: nat, wb: WorkerBuf, j: nat)
    requires k >= 1 && s >= 1 && wb.Valid() && |wb.inputBufs| == k && Base(k, s) >= 1 && |data| == Base(j, Base(k, s))
    requires Striped(data, k, s, wb.inputBufs, wb.inputWritedSize)
    ensures wb.inputWritedSize[0] == Base(j, s) == CodingSize(|data|, k, s)
  {
    hide Base, Lane, CodingSize;
    FirstIs(data, k, s, wb);
    WholeStripes(data, k, s, 0, j);
  }

  /** The parity buffers start from zero. */
  method ClearOutputs(file: ECFile, wb: WorkerBuf, ghost data: seq<Byte>)
    requires file.Valid() && wb.Valid() && Separate(file, wb) && wb.codingSize <= wb.alignedBufSize
    requires Base(file.stripeK, file.streamingSize) >= 1 && Striped(data, file.stripeK, file.streamingSize, wb.inputBufs, wb.inputWritedSize)
    modifies wb.outputBufs
    ensures file.buf[..] == old(file.buf[..])
    ensures Striped(data, file.stripeK, file.streamingSize, wb.inputBufs, wb.inputWritedSize)
    ensures forall b, i :: 0 <= b < |wb.outputBufs| && 0 <= i < wb.codingSize ==> wb.outputBufs[b][i] == 0
  {
    hide Base, Lane, CodingSize, Holds;
    var idx: nat := 0;
    while idx < |wb.outputBufs|
      invariant idx <= |wb.outputBufs| && forall b, i :: 0 <= b < idx && 0 <= i < wb.codingSize ==> wb.outputBufs[b][i] == 0
      invariant file.buf[..] == old(file.buf[..])
      invariant Striped(data, file.stripeK, file.streamingSize, wb.inputBufs, wb.inputWritedSize)
    {
      ClearBytes(wb.outputBufs[idx], 0, wb.codingSize);
      idx := idx + 1;
    }
  }
}
