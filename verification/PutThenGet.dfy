/** Put and then get is the identity: whatever buffers the file was written from and whatever
    buffers it is read into, as long as all but the last hold whole stripes. */
module PutThenGet {
  import opened Bytes
  import opened RowMajor
  import opened Striping
  import opened StripeWrite
  import opened StripeRead
  import opened FileParts
  import opened FileWrite
  import opened FileRead

  /** The blocks of a new file hold the lanes of all that was written. */
  lemma StoredLanes(blocks: seq<seq<Byte>>, before: seq<seq<Byte>>, parts: seq<seq<Byte>>, k: nat, s: nat)
    requires k >= 1 && s >= 1 && Base(k, s) >= 1 && Cut(parts, Base(k, s)) && Stored(blocks, before, parts, k, s)
    requires forall b :: 0 <= b < |before| ==> before[b] == []
    ensures forall b: nat :: b < k ==> blocks[b] == Lane(Joined(parts), k, s, b)
    ensures forall p: nat :: k <= p < |blocks| ==> |blocks[p]| == CodingSize(|Joined(parts)|, k, s)
  {
    hide Base, Lane, CodingSize, Rest;
    forall b: nat | b < k ensures blocks[b] == Lane(Joined(parts), k, s, b) { WritesMakeLanes(parts, k, s, b); }
    CodedIsCodingSize(parts, k, s);
  }

  /** The servers of the data blocks, each with its cursor at the beginning. */
  method OpenBlocks(blocks: array<seq<Byte>>, k: nat) returns (workers: seq<BlockWorker>)
    requires k <= blocks.Length
    ensures |workers| == k && forall c :: 0 <= c < k ==> fresh(workers[c])
    ensures forall c :: 0 <= c < k ==> workers[c].content == blocks[c] && workers[c].asked == workers[c].got == 0
    ensures forall c, d :: 0 <= c < d < k ==> workers[c] != workers[d]
  {
    workers := [];
    var c: nat := 0;
    while c < k
      invariant c <= k && |workers| == c && forall d :: 0 <= d < c ==> fresh(workers[d])
      invariant forall d :: 0 <= d < c ==> workers[d].content == blocks[d] && workers[d].asked == workers[d].got == 0
      invariant forall d, e :: 0 <= d < e < c ==> workers[d] != workers[e]
    {
      var worker := new BlockWorker(blocks[c]);
      workers := workers + [worker];
      c := c + 1;
    }
  }

  /** Write the buffers, open the blocks, read into buffers of other sizes: the same bytes. */
  method PutThenGet(bufs: seq<array<Byte>>, sizes: seq<nat>, k: nat, s: nat, m: nat, wb: WorkerBuf, maxInFlightReq: nat, ghost parts: seq<seq<Byte>>)
    returns (got: seq<Byte>)
    requires k >= 1 && s >= 1 && wb.Valid() && |wb.inputBufs| == k && |wb.outputBufs| == m && wb.alignedBufSize >= s
    requires forall i :: 0 <= i < |bufs| ==> bufs[i] !in wb.inputBufs && bufs[i] !in wb.outputBufs && (bufs[i] as object) != wb.inputWritedSize
    requires forall b :: 0 <= b < k ==> wb.inputWritedSize[b] == 0
    requires |parts| == |bufs| && forall i :: 0 <= i < |bufs| ==> parts[i] == bufs[i][..]
    requires CutSizes(sizes, Base(k, s)) && Sum(sizes) == |Joined(parts)| && (Base(k, s) >= 1 ==> Cut(parts, Base(k, s)))
    requires maxInFlightReq >= 1 && forall i :: 0 <= i < |sizes| ==> maxInFlightReq >= 2 || sizes[i] <= Base(k, s)
    modifies wb`codingSize, wb.inputWritedSize, wb.inputBufs, wb.outputBufs
    ensures got == Joined(parts)
  {
    hide Base, Lane, CodingSize, Stored, Cut, CutSizes;
    var blocks := new seq<Byte>[k + m](_ => []);
    ghost var before := blocks[..];
    WriteFile(bufs, k, s, wb, blocks, parts);
    StoredLanes(blocks[..], before, parts, k, s);
    var workers := OpenBlocks(blocks, k);
    got := ReadFile(workers, sizes, k, s, maxInFlightReq, Joined(parts));
  }
}
