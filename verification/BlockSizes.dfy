/** `itemIncreFileSize`: the metadata server's own account of how large every block becomes. */
module BlockSizes {
  import opened Bytes
  import opened RowMajor
  import opened Striping
  import opened StripeWrite
  import opened FileParts
  import opened FileWrite

  /** A block group: k data blocks and m parity blocks.  `blockGroupSize` is set to 0 when the group
      is created and never again. */
  class BlockGroup {
    const blockSize: array<nat>
    var blockGroupSize: nat

    constructor (blocks: nat)
      ensures fresh(blockSize) && blockSize.Length == blocks && blockGroupSize == 0
      ensures forall b :: 0 <= b < blocks ==> blockSize[b] == 0
    {
      blockSize := new nat[blocks](_ => 0);
      blockGroupSize := 0;
    }
  }

  class Item {
    const tail: BlockGroup
    var fileSize: nat

    constructor (tail: BlockGroup)
      ensures this.tail == tail && fileSize == 0
    {
      this.tail := tail;
      fileSize := 0;
    }

    /** On a group without a recorded size every block grows by its part of the added bytes.  On a group
        of recorded size n, with data blocks that hold the lanes of n bytes, the new data sizes are
        those of n + addedSize bytes if and only if the last stripe ends inside the first block:
        otherwise the first block is filled up although it is full. */
    method IncreFileSize(k: nat, m: nat, s: nat, addedSize: nat)
      requires k >= 1 && s >= 1 && tail.blockSize.Length == k + m
      modifies this, tail.blockSize
      ensures fileSize == old(fileSize) + addedSize && Base(k, s) >= 1
      ensures tail.blockGroupSize == 0 ==>
        Grown(old(tail.blockSize[..]), tail.blockSize[..], k, s, addedSize)
      ensures addedSize > 0 && Lanes(old(tail.blockSize[..]), tail.blockGroupSize, k, s) ==>
        (Lanes(tail.blockSize[..], tail.blockGroupSize + addedSize, k, s) <==> Rest(tail.blockGroupSize, Base(k, s)) < s)
      ensures var grown := CodingSize(tail.blockGroupSize + addedSize, k, s) - CodingSize(tail.blockGroupSize, k, s);
        forall p :: k <= p < k + m ==> tail.blockSize[p] == old(tail.blockSize[p]) + grown
    {
      hide Base, Whole, Rest, Lanes, LaneSize, Grown, Aligned;
      StripePositive(k, s);
      fileSize := fileSize + addedSize;
      ghost var before, n := tail.blockSize[..], tail.blockGroupSize;
      var aligned := Base(k, s);
      var dataAlignedSize := aligned - Rest(tail.blockGroupSize, aligned);
      if dataAlignedSize == aligned { dataAlignedSize := 0; }
      if addedSize < dataAlignedSize { dataAlignedSize := addedSize; }
      var parityIncreSize := Base(Whole(addedSize - dataAlignedSize, aligned), s);
      if Rest(addedSize - dataAlignedSize, aligned) != 0 { parityIncreSize := parityIncreSize + s; }
      ParityIncrement(n, addedSize, dataAlignedSize, parityIncreSize, k, s);
      GrowParity(k, m, parityIncreSize);
      SameLanes(before, tail.blockSize[..], n, k, s);
      if dataAlignedSize != 0 { AlignData(k, m, s, dataAlignedSize, n); }
      ghost var middle := tail.blockSize[..];
      if addedSize > dataAlignedSize { GrowData(k, m, s, addedSize - dataAlignedSize); }
      DataIncrement(before, middle, tail.blockSize[..], n, addedSize, dataAlignedSize, k, m, s);
    }

    method GrowParity(k: nat, m: nat, size: nat)
      requires tail.blockSize.Length == k + m
      modifies tail.blockSize
      ensures forall b :: 0 <= b < k + m ==> tail.blockSize[b] == old(tail.blockSize[b]) + if b < k then 0 else size
    {
      var idx: nat := 0;
      while idx < m
        invariant idx <= m
        invariant forall b :: 0 <= b < k + m ==> tail.blockSize[b] == old(tail.blockSize[b]) + if k <= b < k + idx then size else 0
      {
        tail.blockSize[idx + k] := tail.blockSize[idx + k] + size;
        idx := idx + 1;
      }
    }

    /** Fill up the last stripe of a group that knows its size `n`. */
    method AlignData(k: nat, m: nat, s: nat, dataAlignedSize: nat, ghost n: nat)
      requires k >= 1 && s >= 1 && tail.blockSize.Length == k + m && Base(k, s) >= 1
      requires 0 < dataAlignedSize <= Base(k, s) - Rest(n, Base(k, s)) < Base(k, s)
      modifies tail.blockSize
      ensures forall b :: k <= b < k + m ==> tail.blockSize[b] == old(tail.blockSize[b])
      ensures Lanes(old(tail.blockSize[..]), n, k, s) ==> Aligned(tail.blockSize[..], n, dataAlignedSize, k, s)
    {
      hide Base, Rest, Whole, Lanes, Pouring, Aligned, LaneSize;
      ghost var before := tail.blockSize[..];
      var sizeToAlign: nat := dataAlignedSize;
      var idx: nat := 0;
      PouringStart(before, n, dataAlignedSize, k, s);
      while idx < k
        invariant idx <= k && forall b :: k <= b < k + m ==> tail.blockSize[b] == old(tail.blockSize[b])
        invariant Lanes(before, n, k, s) ==> Pouring(tail.blockSize[..], n, dataAlignedSize, k, s, idx, sizeToAlign)
      {
        var blockAlignSize := s - Rest(tail.blockSize[idx], s);
        ghost var sizes := tail.blockSize[..];
        if Lanes(before, n, k, s) { PouringStep(sizes, n, dataAlignedSize, k, s, idx, sizeToAlign); }
        if sizeToAlign <= blockAlignSize {
          tail.blockSize[idx] := tail.blockSize[idx] + sizeToAlign;
          return;
        } else {
          tail.blockSize[idx] := tail.blockSize[idx] + blockAlignSize;
          sizeToAlign := sizeToAlign - blockAlignSize;
        }
        idx := idx + 1;
      }
      if Lanes(before, n, k, s) { PouringEnd(tail.blockSize[..], n, dataAlignedSize, k, s, sizeToAlign); }
    }

    /** Whole stripes for every block, and the last stripe block by block. */
    method GrowData(k: nat, m: nat, s: nat, size: nat)
      requires k >= 1 && s >= 1 && tail.blockSize.Length == k + m && Base(k, s) >= 1
      modifies tail.blockSize
      ensures forall b: nat :: b < k + m ==> tail.blockSize[b] == old(tail.blockSize[b]) + if b < k then LaneSize(size, k, s, b) else 0
    {
      hide Base, Whole, Rest;
      var newAlignedSize := Rest(size, Base(k, s));
      var eachDataBlockAddedSize := Base(Whole(size, Base(k, s)), s);
      ghost var rest := newAlignedSize;
      BaseStep(0, s);
      var idx: nat := 0;
      while idx < k
        invariant idx <= k && newAlignedSize == if rest <= Base(idx, s) then 0 else rest - Base(idx, s)
        invariant forall b: nat :: b < k + m ==> tail.blockSize[b] == old(tail.blockSize[b]) + if b < idx then LaneSize(size, k, s, b) else 0
      {
        BaseStep(idx, s);
        if newAlignedSize < s {
          tail.blockSize[idx] := tail.blockSize[idx] + newAlignedSize;
          newAlignedSize := 0;
        } else {
          tail.blockSize[idx] := tail.blockSize[idx] + s;
          newAlignedSize := newAlignedSize - s;
        }
        tail.blockSize[idx] := tail.blockSize[idx] + eachDataBlockAddedSize;
        idx := idx + 1;
      }
    }
  }

  /** Every data block has grown by its lane of `added` bytes, every parity block by the coding size. */
  ghost predicate Grown(before: seq<nat>, after: seq<nat>, k: nat, s: nat, added: nat)
    requires Base(k, s) >= 1
  {
    && |after| == |before| >= k
    && forall b: nat :: b < |after| ==>
         after[b] == before[b] + if b < k then LaneSize(added, k, s, b) else CodingSize(added, k, s)
  }

  /** The data blocks hold the lanes of `n` bytes. */
  ghost predicate Lanes(sizes: seq<nat>, n: nat, k: nat, s: nat) {
    Base(k, s) >= 1 && |sizes| >= k && forall b: nat :: b < k ==> sizes[b] == LaneSize(n, k, s, b)
  }

  lemma SameLanes(before: seq<nat>, sizes: seq<nat>, n: nat, k: nat, s: nat)
    requires Base(k, s) >= 1 && |sizes| == |before| >= k && forall b :: 0 <= b < k ==> sizes[b] == before[b]
    ensures Lanes(before, n, k, s) <==> Lanes(sizes, n, k, s)
  {
    hide LaneSize, Base;
    if Lanes(sizes, n, k, s) { forall b: nat | b < k ensures before[b] == LaneSize(n, k, s, b) { assert sizes[b] == LaneSize(n, k, s, b); } }
  }

  // ----- filling up the last stripe

  /** What filling up leaves: right if the stripe ends inside the first block, else the first block has
      grown where it should not have. */
  ghost predicate Aligned(sizes: seq<nat>, n: nat, d: nat, k: nat, s: nat) {
    && Base(k, s) >= 1 && |sizes| >= k >= 1
    && if Rest(n, Base(k, s)) < s then Lanes(sizes, n + d, k, s) else sizes[0] == LaneSize(n, k, s, 0) + Min(d, s)
  }

  /** Before block `idx` the blocks are filled up, `rest` bytes are left to pour. */
  ghost predicate Pouring(sizes: seq<nat>, n: nat, d: nat, k: nat, s: nat, idx: nat, rest: nat) {
    && Base(k, s) >= 1 && |sizes| >= k >= 1 && s >= 1 && idx <= k && 0 < d <= Base(k, s) - Rest(n, Base(k, s)) < Base(k, s)
    && if Rest(n, Base(k, s)) < s then
         && 0 < rest <= d && (if idx == 0 then rest == d else Rest(n, Base(k, s)) + d - rest == Base(idx, s))
         && (forall b: nat :: b < idx ==> sizes[b] == LaneSize(n + d, k, s, b))
         && forall b: nat :: idx <= b < k ==> sizes[b] == LaneSize(n, k, s, b)
       else
         if idx == 0 then rest == d && sizes[0] == LaneSize(n, k, s, 0) else sizes[0] == LaneSize(n, k, s, 0) + Min(d, s)
  }

  lemma PouringStart(sizes: seq<nat>, n: nat, d: nat, k: nat, s: nat)
    requires Base(k, s) >= 1 && |sizes| >= k >= 1 && s >= 1 && 0 < d <= Base(k, s) - Rest(n, Base(k, s)) < Base(k, s)
    ensures Lanes(sizes, n, k, s) ==> Pouring(sizes, n, d, k, s, 0, d)
  {
    hide Base, Rest, Whole;
  }

  /** A lane of `n` bytes, and of `n` and some more bytes of the same stripe. */
  lemma LaneInStripe(n: nat, d: nat, k: nat, s: nat, b: nat)
    requires k >= 1 && s >= 1 && Base(k, s) >= 1 && d <= Base(k, s) - Rest(n, Base(k, s)) && b < k
    ensures LaneSize(n + d, k, s, b) == Base(Whole(n, Base(k, s)), s) + PieceSize(Rest(n, Base(k, s)) + d, s, b)
  {
    hide Base, Whole, Rest;
    var t, q, r := Base(k, s), Whole(n, Base(k, s)), Rest(n, Base(k, s));
    WholeRest(n, t);
    BaseStep(q, t);
    BaseStep(q, s);
    BaseBefore(b, k, s);
    BaseStep(0, s);
    if r + d < t { WholeIs(n + d, t, q, r + d); } else { WholeIs(n + d, t, q + 1, 0); }
  }

  /** What is free in block `idx`. */
  lemma FreeInBlock(n: nat, k: nat, s: nat, idx: nat)
    requires k >= 1 && s >= 1 && Base(k, s) >= 1 && idx < k
    ensures Rest(n, Base(k, s)) < s ==> Rest(LaneSize(n, k, s, idx), s) == if idx == 0 then Rest(n, Base(k, s)) else 0
    ensures Rest(n, Base(k, s)) >= s ==> Rest(LaneSize(n, k, s, 0), s) == 0
  {
    hide Base, Whole, Rest;
    var q, r := Whole(n, Base(k, s)), Rest(n, Base(k, s));
    BaseStep(q, s);
    BaseStep(0, s);
    if r < s {
      if idx > 0 { BaseBefore(0, idx, s); }
      WholeIs(LaneSize(n, k, s, idx), s, q, if idx == 0 then r else 0);
    } else {
      WholeIs(LaneSize(n, k, s, 0), s, q + 1, 0);
    }
  }

  lemma PouringStep(sizes: seq<nat>, n: nat, d: nat, k: nat, s: nat, idx: nat, rest: nat)
    requires Pouring(sizes, n, d, k, s, idx, rest) && idx < k
    ensures s >= 1 && |sizes| >= k
    ensures var free := s - Rest(sizes[idx], s);
      if rest <= free then Aligned(sizes[idx := sizes[idx] + rest], n, d, k, s)
      else Pouring(sizes[idx := sizes[idx] + free], n, d, k, s, idx + 1, rest - free)
  {
    hide Base, Whole, Rest, LaneSize;
    var r := Rest(n, Base(k, s));
    BaseStep(0, s);
    BaseStep(idx, s);
    FreeInBlock(n, k, s, idx);
    if r < s {
      PourOne(sizes, n, d, k, s, idx, rest);
    }
  }

  lemma PourOne(sizes: seq<nat>, n: nat, d: nat, k: nat, s: nat, idx: nat, rest: nat)
    requires Pouring(sizes, n, d, k, s, idx, rest) && idx < k && Rest(n, Base(k, s)) < s
    ensures s >= 1 && |sizes| >= k
    ensures var free := s - Rest(sizes[idx], s);
      if rest <= free then Lanes(sizes[idx := sizes[idx] + rest], n + d, k, s)
      else rest - free <= d && sizes[idx] + free == LaneSize(n + d, k, s, idx) && Rest(n, Base(k, s)) + d - (rest - free) == Base(idx + 1, s)
  {
    hide Base, Whole, Rest;
    var r, free := Rest(n, Base(k, s)), s - Rest(sizes[idx], s);
    BaseStep(0, s);
    BaseStep(idx, s);
    FreeInBlock(n, k, s, idx);
    LaneInStripe(n, d, k, s, idx);
    LaneInStripe(n, 0, k, s, idx);
    if idx > 0 { BaseBefore(0, idx, s); }
    if rest <= free {
      var t := sizes[idx := sizes[idx] + rest];
      forall b: nat | b < k ensures t[b] == LaneSize(n + d, k, s, b) {
        LaneInStripe(n, d, k, s, b);
        LaneInStripe(n, 0, k, s, b);
        if b > idx { BaseBefore(idx, b, s); }
      }
    }
  }

  lemma PouringEnd(sizes: seq<nat>, n: nat, d: nat, k: nat, s: nat, rest: nat)
    requires Pouring(sizes, n, d, k, s, k, rest)
    ensures Aligned(sizes, n, d, k, s)
  {
    hide Base, Whole, Rest;
  }

  // ----- the increments

  /** The parity grows by what the larger group needs more. */
  lemma ParityIncrement(n: nat, added: nat, d: nat, size: nat, k: nat, s: nat)
    requires k >= 1 && s >= 1 && Base(k, s) >= 1 && d == AlignedPart(n, added, Base(k, s)) && size == CodingSize(added - d, k, s)
    ensures size == CodingSize(n + added, k, s) - CodingSize(n, k, s)
  {
    hide Base, Whole, Rest;
    var t, q, r := Base(k, s), Whole(n, Base(k, s)), Rest(n, Base(k, s));
    WholeRest(n, t);
    BaseStep(q, t);
    BaseStep(q, s);
    if r == 0 {
      SizesAdd(n, added, k, s, 0, q);
    } else if added >= t - r {
      SizesAdd(n + d, added - d, k, s, 0, q + 1);
      WholeIs(n + d, t, q + 1, 0);
    } else {
      WholeIs(n + added, t, q, r + added);
      NothingCoded(k, s);
    }
  }

  /** How much of the added bytes goes into the last stripe. */
  function AlignedPart(n: nat, added: nat, t: nat): (d: nat)
    requires t >= 1
    ensures d <= added
  {
    if Rest(n, t) == 0 then 0 else Min(t - Rest(n, t), added)
  }

  lemma DataIncrement(before: seq<nat>, middle: seq<nat>, after: seq<nat>, n: nat, added: nat, d: nat, k: nat, m: nat, s: nat)
    requires k >= 1 && s >= 1 && Base(k, s) >= 1 && |before| == |middle| == |after| == k + m && d == AlignedPart(n, added, Base(k, s))
    requires forall p :: k <= p < k + m ==> middle[p] == before[p] + CodingSize(n + added, k, s) - CodingSize(n, k, s)
    requires if d == 0 then forall b :: 0 <= b < k ==> middle[b] == before[b] else Lanes(before, n, k, s) ==> Aligned(middle, n, d, k, s)
    requires if added > d then forall b: nat :: b < k + m ==> after[b] == middle[b] + if b < k then LaneSize(added - d, k, s, b) else 0
      else after == middle
    ensures n == 0 ==> Grown(before, after, k, s, added)
    ensures added > 0 && Lanes(before, n, k, s) ==> (Lanes(after, n + added, k, s) <==> Rest(n, Base(k, s)) < s)
  {
    hide Base, Whole, Rest, CodingSize, LaneSize;
    if n == 0 { FreshIncrement(before, middle, after, added, k, m, s); }
    if added > 0 && Lanes(before, n, k, s) {
      if Rest(n, Base(k, s)) < s {
        forall b: nat | b < k ensures after[b] == LaneSize(n + added, k, s, b) { LaneIncrement(n, added, d, k, s, b); }
      } else {
        LaneIncrement(n, added, d, k, s, 0);
        FirstIsFull(n, d, k, s);
      }
    }
  }

  lemma FreshIncrement(before: seq<nat>, middle: seq<nat>, after: seq<nat>, added: nat, k: nat, m: nat, s: nat)
    requires k >= 1 && s >= 1 && Base(k, s) >= 1 && |before| == |middle| == |after| == k + m
    requires forall p :: k <= p < k + m ==> middle[p] == before[p] + CodingSize(added, k, s) - CodingSize(0, k, s)
    requires AlignedPart(0, added, Base(k, s)) == 0 ==> forall b :: 0 <= b < k ==> middle[b] == before[b]
    requires AlignedPart(0, added, Base(k, s)) == 0 ==>
      if added > 0 then forall b: nat :: b < k + m ==> after[b] == middle[b] + if b < k then LaneSize(added, k, s, b) else 0 else after == middle
    ensures Grown(before, after, k, s, added)
  {
    hide Base, Whole, Rest;
    BaseStep(0, Base(k, s));
    BaseStep(0, s);
    WholeIs(0, Base(k, s), 0, 0);
  }

  lemma LaneIncrement(n: nat, added: nat, d: nat, k: nat, s: nat, b: nat)
    requires k >= 1 && s >= 1 && Base(k, s) >= 1 && d == AlignedPart(n, added, Base(k, s)) && b < k
    ensures LaneSize(n + added, k, s, b) == LaneSize(n + d, k, s, b) + if added > d then LaneSize(added - d, k, s, b) else 0
  {
    hide Base, Whole, Rest;
    var t, q, r := Base(k, s), Whole(n, Base(k, s)), Rest(n, Base(k, s));
    WholeRest(n, t);
    BaseStep(q, t);
    if added > d {
      SizesAdd(n + d, added - d, k, s, b, if r == 0 then q else q + 1);
    }
  }

  lemma FirstIsFull(n: nat, d: nat, k: nat, s: nat)
    requires k >= 1 && s >= 1 && Base(k, s) >= 1 && Rest(n, Base(k, s)) >= s && d <= Base(k, s) - Rest(n, Base(k, s))
    ensures LaneSize(n + d, k, s, 0) == LaneSize(n, k, s, 0)
  {
    hide Base, Whole, Rest;
    BaseStep(0, s);
    LaneInStripe(n, d, k, s, 0);
    LaneInStripe(n, 0, k, s, 0);
  }

  /** For a file written in one session, in whatever buffers, to a fresh group: the data sizes are those
      of the bytes the client appends, the parity sizes are its coding sizes added up; the data sizes
      add up to the file, and no data block is larger than a parity block. */
  lemma SizesMatchClient(parts: seq<seq<Byte>>, k: nat, m: nat, s: nat, sizes: seq<nat>)
    requires k >= 1 && s >= 1 && Base(k, s) >= 1 && Cut(parts, Base(k, s))
    requires |sizes| == k + m && Grown(seq(k + m, _ => 0), sizes, k, s, |Joined(parts)|)
    ensures forall b: nat :: b < k ==> sizes[b] == |Appended(parts, k, s, b)|
    ensures forall b, p: nat :: 0 <= b < k <= p < k + m ==> sizes[b] <= sizes[p] == Coded(parts, k, s)
    ensures Total(sizes, k) == |Joined(parts)|
  {
    hide Base, LaneSize, CodingSize, Rest;
    var n := |Joined(parts)|;
    forall b: nat | b < k ensures sizes[b] == |Appended(parts, k, s, b)| && sizes[b] <= CodingSize(n, k, s) {
      WritesMakeLanes(parts, k, s, b);
      LaneLength(Joined(parts), k, s, b);
      CodingCovers(n, k, s, b);
    }
    CodedIsCodingSize(parts, k, s);
    TotalIs(sizes, n, k, s, k);
    SizesSum(n, k, s);
  }

  /** A session on top of earlier ones: sizes that were right before are right afterwards. */
  lemma SizesStayRight(blocks: seq<seq<Byte>>, before: seq<seq<Byte>>, parts: seq<seq<Byte>>, k: nat, s: nat, old_sizes: seq<nat>, sizes: seq<nat>)
    requires k >= 1 && s >= 1 && Base(k, s) >= 1 && Cut(parts, Base(k, s)) && Stored(blocks, before, parts, k, s)
    requires Grown(old_sizes, sizes, k, s, |Joined(parts)|) && Recorded(old_sizes, before)
    ensures Recorded(sizes, blocks)
  {
    hide Base, LaneSize, CodingSize, Rest, Lane;
    CodedIsCodingSize(parts, k, s);
    forall b: nat | b < |blocks| ensures sizes[b] == |blocks[b]| {
      assert old_sizes[b] == |before[b]|;
      if b < k {
        WritesMakeLanes(parts, k, s, b);
        LaneLength(Joined(parts), k, s, b);
      }
    }
  }

  /** The metadata server has the size of every block. */
  ghost predicate Recorded(sizes: seq<nat>, blocks: seq<seq<Byte>>) {
    |sizes| == |blocks| && forall b :: 0 <= b < |blocks| ==> sizes[b] == |blocks[b]|
  }

  /** The server's array is none of the client's. */
  ghost predicate NotOf(sizes: array<nat>, wb: WorkerBuf, blocks: array<seq<Byte>>) {
    && (sizes as object) != blocks && sizes != wb.inputWritedSize
    && (forall b :: 0 <= b < |wb.inputBufs| ==> (sizes as object) != wb.inputBufs[b])
    && forall b :: 0 <= b < |wb.outputBufs| ==> (sizes as object) != wb.outputBufs[b]
  }

  /** A write session of the client, reported to the metadata server: after any number of sessions the
      recorded sizes are those of the blocks. */
  method WriteSession(item: Item, bufs: seq<array<Byte>>, k: nat, m: nat, s: nat, wb: WorkerBuf, blocks: array<seq<Byte>>, ghost parts: seq<seq<Byte>>)
    requires k >= 1 && s >= 1 && wb.Valid() && |wb.inputBufs| == k && |wb.outputBufs| == m && Apart(blocks, wb) && wb.alignedBufSize >= s
    requires forall i :: 0 <= i < |bufs| ==> bufs[i] !in wb.inputBufs && bufs[i] !in wb.outputBufs
    requires forall i :: 0 <= i < |bufs| ==> (bufs[i] as object) != wb.inputWritedSize && (blocks as object) != bufs[i]
    requires forall b :: 0 <= b < k ==> wb.inputWritedSize[b] == 0
    requires |parts| == |bufs| && forall i :: 0 <= i < |bufs| ==> parts[i] == bufs[i][..]
    requires Base(k, s) >= 1 ==> Cut(parts, Base(k, s))
    requires item.tail.blockGroupSize == 0 && NotOf(item.tail.blockSize, wb, blocks) && Recorded(item.tail.blockSize[..], blocks[..])
    modifies wb`codingSize, wb.inputWritedSize, wb.inputBufs, wb.outputBufs, blocks, item, item.tail.blockSize
    ensures Recorded(item.tail.blockSize[..], blocks[..]) && item.fileSize == old(item.fileSize) + |Joined(parts)|
    ensures Base(k, s) >= 1 && Stored(blocks[..], old(blocks[..]), parts, k, s)
  {
    hide Base, Lane, LaneSize, CodingSize, Stored, Grown, Cut, Recorded;
    SameLength(item.tail.blockSize[..], blocks[..]);
    ghost var before, sizes := blocks[..], item.tail.blockSize[..];
    WriteFile(bufs, k, s, wb, blocks, parts);
    var size := TotalSize(bufs, parts);
    item.IncreFileSize(k, m, s, size);
    SizesStayRight(blocks[..], before, parts, k, s, sizes, item.tail.blockSize[..]);
  }

  lemma SameLength(sizes: seq<nat>, blocks: seq<seq<Byte>>)
    requires Recorded(sizes, blocks)
    ensures |sizes| == |blocks|
  {
  }

  method TotalSize(bufs: seq<array<Byte>>, ghost parts: seq<seq<Byte>>) returns (size: nat)
    requires |parts| == |bufs| && forall i :: 0 <= i < |bufs| ==> parts[i] == bufs[i][..]
    ensures size == |Joined(parts)|
  {
    size := 0;
    var i: nat := 0;
    while i < |bufs|
      invariant i <= |bufs| && size == |Joined(parts[..i])|
    {
      assert parts[..i + 1] == parts[..i] + [parts[i]];
      JoinedMore(parts[..i], parts[i]);
      size := size + bufs[i].Length;
      i := i + 1;
    }
    assert parts[..i] == parts;
  }
}
