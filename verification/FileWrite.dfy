/** `workerPerformWrite` and `writeBufToServers`: round after round of worker buffers goes to the
    block servers, for one user buffer after the other. */
module FileWrite {
  import opened Bytes
  import opened RowMajor
  import opened Striping
  import opened StripeWrite
  import opened FileParts

  /** The servers' blocks, k for data and m for parity, are none of the client's buffers. */
  ghost predicate Apart(blocks: array<seq<Byte>>, wb: WorkerBuf) {
    && (blocks as object) != wb.inputWritedSize
    && (forall b :: 0 <= b < |wb.inputBufs| ==> (blocks as object) != wb.inputBufs[b])
    && (forall b :: 0 <= b < |wb.outputBufs| ==> (blocks as object) != wb.outputBufs[b])
    && blocks.Length == |wb.inputBufs| + |wb.outputBufs|
  }

  /** The coder thread fills the parity buffers of the round; with what, is the subject of the coding
      modules. */
  method AwaitCoder(wb: WorkerBuf)
    requires wb.Valid() && wb.codingSize <= wb.alignedBufSize
    modifies wb.outputBufs
  {
    var p := 0;
    while p < |wb.outputBufs| {
      var i := 0;
      while i < wb.codingSize {
        wb.outputBufs[p][i] := *;
        i := i + 1;
      }
      p := p + 1;
    }
  }

  /** Every data block receives what its input buffer holds, every parity block `codingSize` bytes. */
  method WriteBufToServers(wb: WorkerBuf, blocks: array<seq<Byte>>) returns (written: nat)
    requires wb.Valid() && Apart(blocks, wb) && wb.codingSize <= wb.alignedBufSize
    requires forall b :: 0 <= b < |wb.inputBufs| ==> wb.inputWritedSize[b] <= wb.alignedBufSize
    modifies wb.inputWritedSize, blocks
    ensures forall b :: 0 <= b < |wb.inputBufs| ==>
      wb.inputWritedSize[b] == 0 && blocks[b] == old(blocks[b]) + wb.inputBufs[b][..old(wb.inputWritedSize[b])]
    ensures forall p :: |wb.inputBufs| <= p < blocks.Length ==> blocks[p] == old(blocks[p]) + wb.outputBufs[p - |wb.inputBufs|][..wb.codingSize]
    ensures written == Total(old(wb.inputWritedSize[..]), |wb.inputBufs|)
  {
    hide Total;
    written := SendData(wb, blocks);
    var p: nat := 0;
    while p < |wb.outputBufs|
      invariant p <= |wb.outputBufs| && forall b :: 0 <= b < |wb.inputBufs| ==>
        wb.inputWritedSize[b] == 0 && blocks[b] == old(blocks[b]) + wb.inputBufs[b][..old(wb.inputWritedSize[b])]
      invariant forall q :: |wb.inputBufs| <= q < blocks.Length ==>
        blocks[q] == if q < |wb.inputBufs| + p then old(blocks[q]) + wb.outputBufs[q - |wb.inputBufs|][..wb.codingSize] else old(blocks[q])
    {
      blocks[|wb.inputBufs| + p] := blocks[|wb.inputBufs| + p] + wb.outputBufs[p][..wb.codingSize];
      p := p + 1;
    }
  }

  method SendData(wb: WorkerBuf, blocks: array<seq<Byte>>) returns (written: nat)
    requires wb.Valid() && Apart(blocks, wb)
    requires forall b :: 0 <= b < |wb.inputBufs| ==> wb.inputWritedSize[b] <= wb.alignedBufSize
    modifies wb.inputWritedSize, blocks
    ensures forall b :: 0 <= b < |wb.inputBufs| ==>
      wb.inputWritedSize[b] == 0 && blocks[b] == old(blocks[b]) + wb.inputBufs[b][..old(wb.inputWritedSize[b])]
    ensures forall p :: |wb.inputBufs| <= p < blocks.Length ==> blocks[p] == old(blocks[p])
    ensures written == Total(old(wb.inputWritedSize[..]), |wb.inputBufs|)
  {
    written := 0;
    var b: nat := 0;
    while b < |wb.inputBufs|
      invariant b <= |wb.inputBufs| && written == Total(old(wb.inputWritedSize[..]), b)
      invariant forall c :: 0 <= c < |wb.inputBufs| ==> wb.inputWritedSize[c] == if c < b then 0 else old(wb.inputWritedSize[c])
      invariant forall c :: 0 <= c < blocks.Length ==>
        blocks[c] == if c < b then old(blocks[c]) + wb.inputBufs[c][..old(wb.inputWritedSize[c])] else old(blocks[c])
    {
      blocks[b] := blocks[b] + wb.inputBufs[b][..wb.inputWritedSize[b]];
      written := written + wb.inputWritedSize[b];
      wb.inputWritedSize[b] := 0;
      b := b + 1;
    }
  }

  /** The blocks have grown by the lanes of `data` and by its coding size. */
  ghost predicate Written(blocks: seq<seq<Byte>>, before: seq<seq<Byte>>, data: seq<Byte>, k: nat, s: nat)
    requires k >= 1 && s >= 1 && Base(k, s) >= 1
  {
    && |blocks| == |before| >= k
    && (forall b: nat :: b < k ==> blocks[b] == before[b] + Lane(data, k, s, b))
    && forall p: nat :: k <= p < |blocks| ==> |blocks[p]| == |before[p]| + CodingSize(|data|, k, s)
  }

  lemma NothingWritten(before: seq<seq<Byte>>, k: nat, s: nat)
    requires k >= 1 && s >= 1 && Base(k, s) >= 1 && |before| >= k
    ensures Written(before, before, [], k, s)
  {
    hide Base, Lane, CodingSize;
    NothingCoded(k, s);
    forall b: nat | b < k ensures before[b] == before[b] + Lane([], k, s, b) { LaneNone([], k, s, b); }
  }

  /** Whole stripes, and then more: one round after the other. */
  lemma WrittenOnTop(blocks: seq<seq<Byte>>, middle: seq<seq<Byte>>, before: seq<seq<Byte>>, data: seq<Byte>, more: seq<Byte>, k: nat, s: nat, j: nat)
    requires k >= 1 && s >= 1 && Base(k, s) >= 1 && |data| == Base(j, Base(k, s))
    requires Written(middle, before, data, k, s) && Written(blocks, middle, more, k, s)
    ensures Written(blocks, before, data + more, k, s)
  {
    hide Base, Lane, CodingSize;
    forall b: nat | b < k ensures blocks[b] == before[b] + Lane(data + more, k, s, b) { LaneConcat(data, more, k, s, b, j); }
    SizesAdd(|data|, |more|, k, s, 0, j);
  }

  /** What a round wrote. */
  lemma RoundWritten(blocks: seq<seq<Byte>>, before: seq<seq<Byte>>, data: seq<Byte>, k: nat, s: nat, bufs: seq<array<Byte>>, sizes: seq<nat>,
      contents: seq<seq<Byte>>)
    requires k >= 1 && s >= 1 && Base(k, s) >= 1 && |bufs| == |sizes| == |contents| == k && |blocks| == |before| >= k
    requires forall b: nat :: b < k ==> Holds(contents[b], sizes[b], Lane(data, k, s, b), CodingSize(|data|, k, s))
    requires forall b: nat :: b < k ==> sizes[b] <= |contents[b]| && blocks[b] == before[b] + contents[b][..sizes[b]]
    requires forall p: nat :: k <= p < |blocks| ==> |blocks[p]| == |before[p]| + CodingSize(|data|, k, s)
    ensures Written(blocks, before, data, k, s) && Total(sizes, k) == |data|
  {
    hide Base, Lane, CodingSize, LaneSize;
    forall b: nat | b < k ensures sizes[b] == LaneSize(|data|, k, s, b) {
      assert Holds(contents[b], sizes[b], Lane(data, k, s, b), CodingSize(|data|, k, s));
      LaneLength(data, k, s, b);
    }
    TotalIs(sizes, |data|, k, s, k);
    SizesSum(|data|, k, s);
  }

  ghost function Contents(bufs: seq<array<Byte>>): (c: seq<seq<Byte>>)
    reads bufs
    ensures |c| == |bufs| && forall b :: 0 <= b < |bufs| ==> c[b] == bufs[b][..]
  {
    seq(|bufs|, b requires 0 <= b < |bufs| reads bufs => bufs[b][..])
  }

  lemma StripedHolds(data: seq<Byte>, k: nat, s: nat, wb: WorkerBuf)
    requires k >= 1 && s >= 1 && Base(k, s) >= 1 && |wb.inputBufs| == k == wb.inputWritedSize.Length
    requires Striped(data, k, s, wb.inputBufs, wb.inputWritedSize)
    ensures forall b: nat :: b < k ==> Holds(Contents(wb.inputBufs)[b], wb.inputWritedSize[..][b], Lane(data, k, s, b), CodingSize(|data|, k, s))
    ensures forall b: nat :: b < k ==> wb.inputWritedSize[b] <= CodingSize(|data|, k, s)
  {
    hide Base, Lane, CodingSize;
    forall b: nat | b < k
      ensures Holds(Contents(wb.inputBufs)[b], wb.inputWritedSize[..][b], Lane(data, k, s, b), CodingSize(|data|, k, s))
      ensures wb.inputWritedSize[b] <= CodingSize(|data|, k, s)
    {
      assert Holds(wb.inputBufs[b][..], wb.inputWritedSize[b], Lane(data, k, s, b), CodingSize(|data|, k, s));
    }
  }

  /** A striped round goes out. */
  method SendRound(wb: WorkerBuf, blocks: array<seq<Byte>>, ghost data: seq<Byte>, ghost k: nat, ghost s: nat) returns (written: nat)
    requires wb.Valid() && Apart(blocks, wb) && k >= 1 && s >= 1 && Base(k, s) >= 1 && |wb.inputBufs| == k
    requires Striped(data, k, s, wb.inputBufs, wb.inputWritedSize) && wb.codingSize == CodingSize(|data|, k, s) <= wb.alignedBufSize
    modifies wb.inputWritedSize, wb.outputBufs, blocks
    ensures forall b :: 0 <= b < k ==> wb.inputWritedSize[b] == 0
    ensures Written(blocks[..], old(blocks[..]), data, k, s) && written == |data|
  {
    hide Base, Lane, CodingSize, Written, Holds, Striped;
    ghost var before := blocks[..];
    AwaitCoder(wb);
    StripedHolds(data, k, s, wb);
    ghost var sizes, contents := wb.inputWritedSize[..], Contents(wb.inputBufs);
    written := WriteBufToServers(wb, blocks);
    RoundWritten(blocks[..], before, data, k, s, wb.inputBufs, sizes, contents);
  }

  /** One round: stripe, have it coded, send it. */
  method WriteRound(file: ECFile, wb: WorkerBuf, blocks: array<seq<Byte>>) returns (written: nat, ghost stripes: nat)
    requires file.Valid() && wb.Valid() && Separate(file, wb) && Apart(blocks, wb) && (blocks as object) != file.buf
    requires forall b :: 0 <= b < file.stripeK ==> wb.inputWritedSize[b] == 0
    modifies file`bufHandledSize, wb`codingSize, wb.inputWritedSize, wb.inputBufs, wb.outputBufs, blocks
    ensures file.Valid() && file.buf[..] == old(file.buf[..]) && old(file.bufHandledSize) + written == file.bufHandledSize
    ensures forall b :: 0 <= b < file.stripeK ==> wb.inputWritedSize[b] == 0
    ensures Base(file.stripeK, file.streamingSize) >= 1
    ensures Written(blocks[..], old(blocks[..]), file.buf[old(file.bufHandledSize)..file.bufHandledSize], file.stripeK, file.streamingSize)
    ensures file.bufHandledSize < file.bufSize ==> wb.codingSize + file.streamingSize > wb.alignedBufSize
    ensures wb.codingSize == CodingSize(written, file.stripeK, file.streamingSize)
    ensures file.bufHandledSize < file.bufSize ==> written == Base(stripes, Base(file.stripeK, file.streamingSize))
  {
    hide Base, Lane, CodingSize, Written, Striped;
    ghost var h := file.bufHandledSize;
    stripes := CopyDataToInputBufs(file, wb);
    written := SendRound(wb, blocks, file.buf[h..file.bufHandledSize], file.stripeK, file.streamingSize);
  }

  /** The user's buffer up to where it has been handled is written, in whole stripes unless that is all of it. */
  ghost predicate Writing(file: ECFile, content: seq<Byte>, blocks: seq<seq<Byte>>, before: seq<seq<Byte>>, stripes: nat)
    reads file
  {
    var k, s := file.stripeK, file.streamingSize;
    && file.Valid() && |content| == file.buf.Length && Base(k, s) >= 1 && file.bufHandledSize <= |content|
    && Written(blocks, before, content[..file.bufHandledSize], k, s)
    && (file.bufHandledSize < file.bufSize ==> file.bufHandledSize == Base(stripes, Base(k, s)))
  }

  /** `workerPerformWrite`: every byte of the user's buffer reaches its block, and every parity block
      grows by the coding size of the buffer. */
  method WorkerPerformWrite(file: ECFile, wb: WorkerBuf, blocks: array<seq<Byte>>)
    requires file.Valid() && wb.Valid() && Separate(file, wb) && Apart(blocks, wb) && (blocks as object) != file.buf
    requires wb.alignedBufSize >= file.streamingSize && file.bufHandledSize == 0
    requires forall b :: 0 <= b < file.stripeK ==> wb.inputWritedSize[b] == 0
    modifies file`bufHandledSize, wb`codingSize, wb.inputWritedSize, wb.inputBufs, wb.outputBufs, blocks
    ensures file.Valid() && file.buf[..] == old(file.buf[..]) && file.bufHandledSize == file.bufSize
    ensures forall b :: 0 <= b < file.stripeK ==> wb.inputWritedSize[b] == 0
    ensures Base(file.stripeK, file.streamingSize) >= 1
    ensures Written(blocks[..], old(blocks[..]), file.buf[..file.bufSize], file.stripeK, file.streamingSize)
  {
    hide Base, Lane, CodingSize, Written, Whole, Rest;
    ghost var content, before := file.buf[..], blocks[..];
    ghost var stripes := StartWriting(file, content, before);
    var bufWritedSize: nat := 0;
    while bufWritedSize < file.bufSize
      invariant bufWritedSize == file.bufHandledSize && file.buf[..] == content && Writing(file, content, blocks[..], before, stripes)
      invariant forall b :: 0 <= b < file.stripeK ==> wb.inputWritedSize[b] == 0
      decreases file.bufSize - bufWritedSize
    {
      ghost var h, middle := file.bufHandledSize, blocks[..];
      var written; ghost var more;
      written, more := WriteRound(file, wb, blocks);
      bufWritedSize := bufWritedSize + written;
      NextRound(content, h, file.bufHandledSize, file.stripeK, file.streamingSize, blocks[..], middle, before, stripes);
      RoundProgress(written, wb.codingSize, wb.alignedBufSize, file.stripeK, file.streamingSize);
      BaseTogether(stripes, more, Base(file.stripeK, file.streamingSize));
      stripes := stripes + more;
    }
  }

  lemma StartWriting(file: ECFile, content: seq<Byte>, before: seq<seq<Byte>>) returns (stripes: nat)
    requires file.Valid() && content == file.buf[..] && file.bufHandledSize == 0 && |before| >= file.stripeK
    ensures Writing(file, content, before, before, stripes)
  {
    StripePositive(file.stripeK, file.streamingSize);
    hide Base, Written;
    BaseStep(0, Base(file.stripeK, file.streamingSize));
    NothingWritten(before, file.stripeK, file.streamingSize);
    stripes := 0;
    assert content[..0] == [];
  }

  lemma NextRound(content: seq<Byte>, h: nat, h': nat, k: nat, s: nat, blocks: seq<seq<Byte>>, middle: seq<seq<Byte>>, before: seq<seq<Byte>>, j: nat)
    requires k >= 1 && s >= 1 && Base(k, s) >= 1 && h <= h' <= |content| && h == Base(j, Base(k, s))
    requires Written(middle, before, content[..h], k, s) && Written(blocks, middle, content[h..h'], k, s)
    ensures Written(blocks, before, content[..h'], k, s)
  {
    hide Base, Written;
    WrittenOnTop(blocks, middle, before, content[..h], content[h..h'], k, s, j);
    assert content[..h] + content[h..h'] == content[..h'];
  }

  /** A worker buffer has room for at least one stripe, so a round that leaves something over has
      written something. */
  lemma RoundProgress(written: nat, codingSize: nat, alignedBufSize: nat, k: nat, s: nat)
    requires Base(k, s) >= 1 && codingSize == CodingSize(written, k, s) && alignedBufSize >= s
    ensures codingSize + s > alignedBufSize ==> written > 0
  {
    hide Base, CodingSize;
    if written == 0 { NothingCoded(k, s); }
  }

  /** The sizes, the buffers and the blocks of a session. */
  ghost predicate Stored(blocks: seq<seq<Byte>>, before: seq<seq<Byte>>, parts: seq<seq<Byte>>, k: nat, s: nat)
    requires k >= 1 && s >= 1 && Base(k, s) >= 1
  {
    && |blocks| == |before| >= k
    && (forall b: nat :: b < k ==> blocks[b] == before[b] + Appended(parts, k, s, b))
    && forall p: nat :: k <= p < |blocks| ==> |blocks[p]| == |before[p]| + Coded(parts, k, s)
  }

  lemma StoreNext(blocks: seq<seq<Byte>>, middle: seq<seq<Byte>>, before: seq<seq<Byte>>, parts: seq<seq<Byte>>, part: seq<Byte>, k: nat, s: nat)
    requires k >= 1 && s >= 1 && Base(k, s) >= 1 && Stored(middle, before, parts, k, s) && Written(blocks, middle, part, k, s)
    ensures Stored(blocks, before, parts + [part], k, s)
  {
    hide Base, Lane, CodingSize;
    assert (parts + [part])[..|parts|] == parts;
  }

  /** A file is put by writing one user buffer after the other. */
  method WriteFile(bufs: seq<array<Byte>>, k: nat, s: nat, wb: WorkerBuf, blocks: array<seq<Byte>>, ghost parts: seq<seq<Byte>>)
    requires k >= 1 && s >= 1 && wb.Valid() && |wb.inputBufs| == k && Apart(blocks, wb) && wb.alignedBufSize >= s
    requires forall i :: 0 <= i < |bufs| ==> bufs[i] !in wb.inputBufs && bufs[i] !in wb.outputBufs
    requires forall i :: 0 <= i < |bufs| ==> (bufs[i] as object) != wb.inputWritedSize && (blocks as object) != bufs[i]
    requires forall b :: 0 <= b < k ==> wb.inputWritedSize[b] == 0
    requires |parts| == |bufs| && forall i :: 0 <= i < |bufs| ==> parts[i] == bufs[i][..]
    modifies wb`codingSize, wb.inputWritedSize, wb.inputBufs, wb.outputBufs, blocks
    ensures forall i :: 0 <= i < |bufs| ==> bufs[i][..] == old(bufs[i][..])
    ensures forall b :: 0 <= b < k ==> wb.inputWritedSize[b] == 0
    ensures Base(k, s) >= 1 && Stored(blocks[..], old(blocks[..]), parts, k, s)
  {
    hide Base, Lane, CodingSize, Written, Stored;
    StripePositive(k, s);
    ghost var before := blocks[..];
    StoredNothing(before, k, s);
    var i: nat := 0;
    while i < |bufs|
      invariant i <= |bufs| && Stored(blocks[..], before, parts[..i], k, s)
      invariant forall j :: 0 <= j < |bufs| ==> bufs[j][..] == parts[j]
      invariant forall b :: 0 <= b < k ==> wb.inputWritedSize[b] == 0
    {
      ghost var middle := blocks[..];
      var file := new ECFile(bufs[i], k, s);
      WorkerPerformWrite(file, wb, blocks);
      assert file.buf[..file.bufSize] == parts[i] && parts[..i] + [parts[i]] == parts[..i + 1];
      StoreNext(blocks[..], middle, before, parts[..i], parts[i], k, s);
      i := i + 1;
    }
    assert parts[..i] == parts;
  }

  lemma StoredNothing(before: seq<seq<Byte>>, k: nat, s: nat)
    requires k >= 1 && s >= 1 && Base(k, s) >= 1 && |before| >= k
    ensures Stored(before, before, [], k, s)
  {
    hide Base, Lane;
    var none: seq<seq<Byte>> := [];
    assert Coded(none, k, s) == 0 && forall b: nat :: b < k ==> Appended(none, k, s, b) == [];
  }
}
