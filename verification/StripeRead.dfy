/** `workerPerformRead` and `startReadECBlock`: the client's read path.  The blocks are read one
    after the other, a piece per request, with a bounded number of requests under way. */
module StripeRead {
  import opened Bytes
  import opened RowMajor
  import opened Striping

  /** A block on its server: reads are answered in order from a cursor, so the bytes asked for and
      not received are under way. */
  class BlockWorker {
    const content: seq<Byte>
    var asked: nat
    var got: nat

    constructor (content: seq<Byte>)
      ensures this.content == content && asked == got == 0
    {
      this.content, asked, got := content, 0, 0;
    }

    ghost predicate Valid()
      reads this
    {
      got <= asked <= |content|
    }
  }

  /** A moment of the read: requests under way, bytes asked for and received, bytes under way. */
  datatype Moment = Moment(inFlight: nat, handled: nat, written: nat, underWay: int)

  /** At every moment the window is kept, and what is handled but not written is under way. */
  predicate Steady(moments: seq<Moment>, maxInFlightReq: nat) {
    forall i :: 0 <= i < |moments| ==>
      moments[i].inFlight <= maxInFlightReq && moments[i].handled - moments[i].written == moments[i].underWay
  }

  class Reader {
    const buf: array<Byte>
    const stripeK: nat
    const streamingSize: nat
    const bufSize: nat
    const maxInFlightReq: nat
    var bufHandledSize: nat
    var bufWritedSize: nat
    var curInFlightReq: nat
    /** The state after every request and after every piece received. */
    ghost var moments: seq<Moment>

    constructor (buf: array<Byte>, bufSize: nat, stripeK: nat, streamingSize: nat, maxInFlightReq: nat)
      ensures this.buf == buf && this.bufSize == bufSize && this.stripeK == stripeK && this.streamingSize == streamingSize
      ensures this.maxInFlightReq == maxInFlightReq && bufHandledSize == bufWritedSize == curInFlightReq == 0 && moments == []
    {
      this.buf, this.bufSize, this.stripeK, this.streamingSize := buf, bufSize, stripeK, streamingSize;
      this.maxInFlightReq := maxInFlightReq;
      bufHandledSize, bufWritedSize, curInFlightReq := 0, 0, 0;
      moments := [];
    }

    ghost predicate Valid() {
      stripeK >= 1 && streamingSize >= 1 && maxInFlightReq >= 1 && bufSize <= buf.Length
    }

    ghost method Observe(worker: BlockWorker)
      modifies this`moments
      ensures moments == old(moments) + [Moment(curInFlightReq, bufHandledSize, bufWritedSize, worker.asked - worker.got)]
    {
      moments := moments + [Moment(curInFlightReq, bufHandledSize, bufWritedSize, worker.asked - worker.got)];
    }

    /** `reqECBlockRead`. */
    method Request(worker: BlockWorker, reqSize: nat)
      requires worker.Valid() && worker.asked + reqSize <= |worker.content|
      modifies this`curInFlightReq, worker`asked
      ensures worker.Valid() && worker.asked == old(worker.asked) + reqSize && curInFlightReq == old(curInFlightReq) + 1
    {
      worker.asked := worker.asked + reqSize;
      curInFlightReq := curInFlightReq + 1;
    }

    /** `readDataFromBlockServer`: the next bytes of the connection, in as many pieces as they come. */
    method Receive(worker: BlockWorker, startOffset: nat, readSize: nat)
      requires worker.Valid() && worker.got + readSize <= worker.asked && startOffset + readSize <= buf.Length
      modifies buf, worker`got
      ensures worker.Valid() && worker.got == old(worker.got) + readSize
      ensures buf[startOffset..startOffset + readSize] == worker.content[old(worker.got)..worker.got]
      ensures forall p :: 0 <= p < buf.Length && !(startOffset <= p < startOffset + readSize) ==> buf[p] == old(buf[p])
    {
      ghost var from := worker.got;
      var n: nat := 0;
      while n < readSize
        invariant n <= readSize && worker.got == from + n && worker.Valid()
        invariant buf[startOffset..startOffset + n] == worker.content[from..from + n]
        invariant forall p :: 0 <= p < buf.Length && !(startOffset <= p < startOffset + n) ==> buf[p] == old(buf[p])
      {
        buf[startOffset + n] := worker.content[worker.got];
        worker.got := worker.got + 1;
        n := n + 1;
      }
    }
  }

  // ----- which bytes belong to the first stripes of a block

  /** The bytes of block `b` in the first `j` stripes. */
  function Taken(total: nat, s: nat, j: nat): nat { Min(Base(j, s), total) }

  /** Stripe `j` of block `b`: where it starts and how long its piece is, seen from the buffer and
      seen from the block. */
  lemma PieceAt(n: nat, k: nat, s: nat, b: nat, j: nat)
    requires k >= 1 && s >= 1 && b < k
    ensures Base(k, s) >= 1
    ensures var from, total := Base(b, s) + Base(j, Base(k, s)), LaneSize(n, k, s, b);
      && (from < n <==> Base(j, s) < total)
      && (from < n ==> Min(n - from, s) == Min(total - Base(j, s), s) == Taken(total, s, j + 1) - Taken(total, s, j) >= 1)
      && (from >= n ==> Taken(total, s, j) == total)
  {
    hide Base, Whole, Rest;
    StripePositive(k, s);
    var t := Base(k, s);
    var q, r := Whole(n, t), Rest(n, t);
    WholeRest(n, t);
    BaseBefore(b, k, s);
    BaseStep(j, s);
    if j < q {
      BaseBefore(j, q, t);
      BaseBefore(j, q, s);
    } else if j > q {
      BaseBefore(q, j, t);
      BaseBefore(q, j, s);
    }
  }

  /** The first `j` stripes of block `b` are in the buffer. */
  ghost predicate InPlace(buf: seq<Byte>, data: seq<Byte>, k: nat, s: nat, b: nat, j: nat) {
    forall i: nat :: i < j ==> PieceInPlace(buf, data, k, s, b, i)
  }

  ghost predicate PieceInPlace(buf: seq<Byte>, data: seq<Byte>, k: nat, s: nat, b: nat, i: nat) {
    var from := Base(b, s) + Base(i, Base(k, s));
    |data| <= |buf| && forall p :: from <= p < from + s && p < |data| ==> buf[p] == data[p]
  }

  /** What the block still has to give for this buffer. */
  ghost predicate Serves(content: seq<Byte>, from: nat, data: seq<Byte>, k: nat, s: nat, b: nat)
    requires k >= 1 && s >= 1 && b < k
  {
    from + |Lane(data, k, s, b)| <= |content| && content[from..from + |Lane(data, k, s, b)|] == Lane(data, k, s, b)
  }

  /** The next piece of the block is the next piece of the buffer. */
  lemma NextPiece(content: seq<Byte>, from: nat, data: seq<Byte>, k: nat, s: nat, b: nat, j: nat)
    requires k >= 1 && s >= 1 && b < k && Serves(content, from, data, k, s, b) && Base(b, s) + Base(j, Base(k, s)) < |data|
    ensures Base(k, s) >= 1
    ensures var total, at, n := LaneSize(|data|, k, s, b), Base(b, s) + Base(j, Base(k, s)), Min(|data| - (Base(b, s) + Base(j, Base(k, s))), s);
      && Base(j, s) + n == Taken(total, s, j + 1) && Taken(total, s, j) == Base(j, s) && from + Base(j, s) + n <= |content|
      && content[from + Base(j, s)..from + Base(j, s) + n] == data[at..at + n]
  {
    hide Base, Lane, LaneSize;
    PieceAt(|data|, k, s, b, j);
    BaseStep(j, s);
    LaneLength(data, k, s, b);
    var n := Min(|data| - (Base(b, s) + Base(j, Base(k, s))), s);
    LaneAt(data, k, s, b, j, n);
    SliceWithin(content, Lane(data, k, s, b), from, Base(j, s), n);
  }

  lemma SliceWithin(content: seq<Byte>, part: seq<Byte>, from: nat, at: nat, n: nat)
    requires from + |part| <= |content| && content[from..from + |part|] == part && at + n <= |part|
    ensures content[from + at..from + at + n] == part[at..at + n]
  {
    var a, b := content[from + at..from + at + n], part[at..at + n];
    forall p | 0 <= p < n ensures a[p] == b[p] { assert content[from..from + |part|][at + p] == part[at + p]; }
  }

  /** Correct bytes written anywhere leave correct pieces correct. */
  lemma MoreInPlace(old_buf: seq<Byte>, buf: seq<Byte>, data: seq<Byte>, k: nat, s: nat, at: nat, n: nat, b: nat, i: nat)
    requires |old_buf| == |buf| && at + n <= |data| <= |buf| && buf[at..at + n] == data[at..at + n]
    requires forall p :: 0 <= p < |buf| && !(at <= p < at + n) ==> buf[p] == old_buf[p]
    ensures PieceInPlace(old_buf, data, k, s, b, i) ==> PieceInPlace(buf, data, k, s, b, i)
    ensures at == Base(b, s) + Base(i, Base(k, s)) && n == Min(|data| - at, s) ==> PieceInPlace(buf, data, k, s, b, i)
  {
    hide Base;
    forall p | at <= p < at + n ensures buf[p] == data[p] {
      assert buf[at..at + n][p - at] == data[at..at + n][p - at];
    }
  }

  /** The blocks before `b` are complete, and the first `j` stripes of block `b`. */
  ghost predicate Filled(buf: seq<Byte>, data: seq<Byte>, k: nat, s: nat, b: nat, j: nat) {
    && |data| <= |buf|
    && (forall c: nat, i: nat :: c < b ==> PieceInPlace(buf, data, k, s, c, i))
    && InPlace(buf, data, k, s, b, j)
  }

  lemma FilledMore(old_buf: seq<Byte>, buf: seq<Byte>, data: seq<Byte>, k: nat, s: nat, b: nat, j: nat)
    requires Filled(old_buf, data, k, s, b, j) && |old_buf| == |buf|
    requires Base(b, s) + Base(j, Base(k, s)) < |data|
    requires var at := Base(b, s) + Base(j, Base(k, s)); var n := Min(|data| - at, s);
      buf[at..at + n] == data[at..at + n] && forall p :: 0 <= p < |buf| && !(at <= p < at + n) ==> buf[p] == old_buf[p]
    ensures Filled(buf, data, k, s, b, j + 1)
  {
    hide Base, PieceInPlace;
    var at := Base(b, s) + Base(j, Base(k, s));
    var n := Min(|data| - at, s);
    forall c: nat, i: nat | c < b ensures PieceInPlace(buf, data, k, s, c, i) { MoreInPlace(old_buf, buf, data, k, s, at, n, c, i); }
    forall i: nat | i < j + 1 ensures PieceInPlace(buf, data, k, s, b, i) { MoreInPlace(old_buf, buf, data, k, s, at, n, b, i); }
  }

  /** All stripes that have bytes are there: the block is complete. */
  lemma FilledBlock(buf: seq<Byte>, data: seq<Byte>, k: nat, s: nat, b: nat, j: nat)
    requires Filled(buf, data, k, s, b, j) && Base(b, s) + Base(j, Base(k, s)) >= |data|
    ensures Filled(buf, data, k, s, b + 1, 0)
  {
    hide Base;
    forall c: nat, i: nat | c < b + 1 ensures PieceInPlace(buf, data, k, s, c, i) {
      if c == b && i >= j {
        if i > j { BaseBefore(j, i, Base(k, s)); }
      }
    }
  }

  // ----- one block

  /** `r` requests have been sent and `g` pieces received; `h` bytes had been handled before. */
  ghost predicate Reading(reader: Reader, worker: BlockWorker, data: seq<Byte>, b: nat, a: nat, h: nat, r: nat, g: nat)
    reads reader, reader.buf, worker
  {
    var k, s := reader.stripeK, reader.streamingSize;
    && reader.Valid() && worker.Valid() && b < k && |data| == reader.bufSize && Base(k, s) >= 1
    && Serves(worker.content, a, data, k, s, b) && g <= r
    && var total := LaneSize(|data|, k, s, b);
    && worker.asked == a + Taken(total, s, r) && worker.got == a + Taken(total, s, g)
    && reader.bufHandledSize == h + Taken(total, s, r) && reader.bufWritedSize == h + Taken(total, s, g)
    && reader.curInFlightReq == r - g <= reader.maxInFlightReq
    && (r > 0 ==> Base(b, s) + Base(r - 1, Base(k, s)) < |data|) && Steady(reader.moments, reader.maxInFlightReq)
    && Filled(reader.buf[..], data, k, s, b, g)
  }

  /** The offsets of the request loop and of the receive loop. */
  lemma Offsets(b: nat, s: nat, t: nat, j: nat)
    ensures Base(b, s) + Base(j, t) + t == Base(b, s) + Base(j + 1, t)
  {
    BaseStep(j, t);
  }

  lemma EarlierStripe(n: nat, b: nat, s: nat, t: nat, g: nat, r: nat)
    requires g < r && Base(b, s) + Base(r - 1, t) < n
    ensures Base(b, s) + Base(g, t) < n
  {
    if g < r - 1 { BaseBefore(g, r - 1, t); }
  }

  method SendRequests(reader: Reader, worker: BlockWorker, reqOffset0: nat, margin: nat, ghost data: seq<Byte>, ghost b: nat, ghost a: nat,
      ghost h: nat, ghost r0: nat, ghost g: nat) returns (reqOffset: nat, ghost r: nat)
    requires reader.Valid() && margin == Base(reader.stripeK, reader.streamingSize)
    requires reqOffset0 == Base(b, reader.streamingSize) + Base(r0, margin)
    requires Reading(reader, worker, data, b, a, h, r0, g)
    modifies reader`bufHandledSize, reader`curInFlightReq, reader`moments, worker`asked
    ensures reqOffset == Base(b, reader.streamingSize) + Base(r, margin) && r >= r0
    ensures Reading(reader, worker, data, b, a, h, r, g)
    ensures reader.curInFlightReq == reader.maxInFlightReq || reqOffset >= reader.bufSize
  {
    hide Base, Serves, Filled, LaneSize;
    reqOffset, r := reqOffset0, r0;
    while reader.curInFlightReq < reader.maxInFlightReq
      invariant reqOffset == Base(b, reader.streamingSize) + Base(r, margin) && r >= r0 && Reading(reader, worker, data, b, a, h, r, g)
      decreases reader.maxInFlightReq - reader.curInFlightReq
    {
      if reqOffset > reader.bufSize { break; }
      var reqSize := reader.bufSize - reqOffset;
      if reqSize == 0 { break; }
      if reqSize > reader.streamingSize { reqSize := reader.streamingSize; }
      NextPiece(worker.content, a, data, reader.stripeK, reader.streamingSize, b, r);
      reader.Request(worker, reqSize);
      reader.bufHandledSize := reader.bufHandledSize + reqSize;
      reader.Observe(worker);
      Offsets(b, reader.streamingSize, margin, r);
      reqOffset := reqOffset + margin;
      r := r + 1;
    }
  }

  method ReceivePiece(reader: Reader, worker: BlockWorker, startOffset: nat, ghost data: seq<Byte>, ghost b: nat, ghost a: nat,
      ghost h: nat, ghost r: nat, ghost g: nat)
    requires Reading(reader, worker, data, b, a, h, r, g) && g < r
    requires startOffset == Base(b, reader.streamingSize) + Base(g, Base(reader.stripeK, reader.streamingSize)) < reader.bufSize
    modifies reader`bufWritedSize, reader`curInFlightReq, reader`moments, reader.buf, worker`got
    ensures Reading(reader, worker, data, b, a, h, r, g + 1) && reader.bufWritedSize > old(reader.bufWritedSize)
  {
    hide Base, Serves, Filled, LaneSize;
    var readSize := reader.bufSize - startOffset;
    if readSize > reader.streamingSize { readSize := reader.streamingSize; }
    NextPiece(worker.content, a, data, reader.stripeK, reader.streamingSize, b, g);
    TakenMono(LaneSize(|data|, reader.stripeK, reader.streamingSize, b), reader.streamingSize, g + 1, r);
    ghost var before := reader.buf[..];
    reader.Receive(worker, startOffset, readSize);
    FilledMore(before, reader.buf[..], data, reader.stripeK, reader.streamingSize, b, g);
    reader.bufWritedSize := reader.bufWritedSize + readSize;
    reader.curInFlightReq := reader.curInFlightReq - 1;
    reader.Observe(worker);
  }

  lemma TakenMono(total: nat, s: nat, i: nat, j: nat)
    requires i <= j
    ensures Taken(total, s, i) <= Taken(total, s, j)
  {
    if i < j { BaseBefore(i, j, s); }
  }

  /** Read one block.  With a window of one request the loop stops after the first piece: the whole
      block is read exactly when the window holds two requests or the block has only one piece. */
  method StartReadECBlock(reader: Reader, worker: BlockWorker, startOffset0: nat, margin: nat, ghost data: seq<Byte>, ghost b: nat)
    requires reader.Valid() && b < reader.stripeK && margin == Base(reader.stripeK, reader.streamingSize)
    requires startOffset0 == Base(b, reader.streamingSize) < reader.bufSize
    requires Reading(reader, worker, data, b, worker.got, reader.bufWritedSize, 0, 0)
    modifies reader`bufHandledSize, reader`bufWritedSize, reader`curInFlightReq, reader`moments, reader.buf, worker`asked, worker`got
    ensures Steady(reader.moments, reader.maxInFlightReq)
    ensures Base(reader.stripeK, reader.streamingSize) >= 1
    ensures var total := LaneSize(|data|, reader.stripeK, reader.streamingSize, b);
      var size := if reader.maxInFlightReq >= 2 then total else Taken(total, reader.streamingSize, 1);
      && worker.Valid() && worker.asked == worker.got == old(worker.got) + size
      && reader.bufHandledSize == reader.bufWritedSize == old(reader.bufWritedSize) + size && reader.curInFlightReq == 0
    ensures worker.got == old(worker.got) + LaneSize(|data|, reader.stripeK, reader.streamingSize, b) <==>
      reader.maxInFlightReq >= 2 || LaneSize(|data|, reader.stripeK, reader.streamingSize, b) <= reader.streamingSize
    ensures reader.maxInFlightReq >= 2 || LaneSize(|data|, reader.stripeK, reader.streamingSize, b) <= reader.streamingSize ==>
      Filled(reader.buf[..], data, reader.stripeK, reader.streamingSize, b + 1, 0)
  {
    hide Base, Serves, Filled, LaneSize;
    ghost var a, h, r, g := worker.got, reader.bufWritedSize, 0, 0;
    ghost var total := LaneSize(|data|, reader.stripeK, reader.streamingSize, b);
    var startOffset := startOffset0;
    var reqOffset := startOffset;
    BaseStep(0, margin);
    while true
      invariant reqOffset == Base(b, reader.streamingSize) + Base(r, margin) && startOffset == Base(b, reader.streamingSize) + Base(g, margin)
      invariant startOffset < reader.bufSize && Reading(reader, worker, data, b, a, h, r, g)
      invariant reader.maxInFlightReq == 1 ==> r == g == 0
      decreases total - Taken(total, reader.streamingSize, g)
    {
      reqOffset, r := SendRequests(reader, worker, reqOffset, margin, data, b, a, h, r, g);
      assert g < r;
      ReceivePiece(reader, worker, startOffset, data, b, a, h, r, g);
      Offsets(b, reader.streamingSize, margin, g);
      startOffset := startOffset + margin;
      g := g + 1;
      SameCount(|data|, reader.stripeK, reader.streamingSize, b, r, g);
      if reader.bufHandledSize == reader.bufWritedSize { break; }
      EarlierStripe(|data|, b, reader.streamingSize, margin, g, r);
    }
    BaseStep(0, reader.streamingSize);
    if reader.maxInFlightReq >= 2 || total <= reader.streamingSize {
      PieceAt(|data|, reader.stripeK, reader.streamingSize, b, r);
      FilledBlock(reader.buf[..], data, reader.stripeK, reader.streamingSize, b, r);
    }
  }

  /** Every request is for at least one byte: equal totals mean equal numbers. */
  lemma SameCount(n: nat, k: nat, s: nat, b: nat, r: nat, g: nat)
    requires k >= 1 && s >= 1 && b < k && g <= r && (r > 0 ==> Base(b, s) + Base(r - 1, Base(k, s)) < n)
    ensures Base(k, s) >= 1
    ensures Taken(LaneSize(n, k, s, b), s, r) == Taken(LaneSize(n, k, s, b), s, g) <==> r == g
  {
    hide Base, LaneSize;
    StripePositive(k, s);
    if g < r {
      EarlierStripe(n, b, s, Base(k, s), g, r);
      PieceAt(n, k, s, b, g);
      TakenMono(LaneSize(n, k, s, b), s, g + 1, r);
    }
  }

  // ----- all blocks

  /** The workers from `b` on still have their part of this buffer. */
  ghost predicate AllServe(workers: seq<BlockWorker>, from: seq<nat>, data: seq<Byte>, k: nat, s: nat, b: nat)
    requires k >= 1 && s >= 1 && |workers| == |from| == k
    reads workers
  {
    forall c: nat :: b <= c < k ==>
      workers[c].Valid() && workers[c].asked == workers[c].got == from[c] && Serves(workers[c].content, from[c], data, k, s, c)
  }

  /** The workers before `b` have given it. */
  ghost predicate AllServed(workers: seq<BlockWorker>, from: seq<nat>, n: nat, k: nat, s: nat, b: nat)
    requires |workers| == |from| == k && Base(k, s) >= 1
    reads workers
  {
    forall c: nat :: c < b && c < k ==>
      workers[c].Valid() && workers[c].asked == workers[c].got == from[c] + LaneSize(n, k, s, c)
  }

  /** When bytes are missing after `b` blocks, block `b` exists and starts inside the buffer. */
  lemma MissingBytes(n: nat, k: nat, s: nat, b: nat)
    requires k >= 1 && s >= 1 && Base(k, s) >= 1 && b <= k && SizesBelow(n, k, s, b) < n
    ensures b < k && Base(b, s) < n
  {
    hide Base, Whole, Rest;
    SizesSum(n, k, s);
    if Base(b, s) >= n {
      if b < k { BaseBefore(b, k, s); }
      SizesBelowAre(n, k, s, b);
      BaseStep(0, Base(k, s));
      BaseStep(0, s);
      if n < Base(k, s) {
        WholeIs(n, Base(k, s), 0, n);
        NothingWhole(b, s);
      }
    }
  }

  lemma NothingWhole(b: nat, s: nat)
    ensures Base(b, Base(0, s)) == 0
  {
  }

  /** A window of one request reads one piece of each block: enough for a buffer of one stripe. */
  ghost predicate WindowFits(reader: Reader) {
    reader.maxInFlightReq >= 2 || reader.bufSize <= Base(reader.stripeK, reader.streamingSize)
  }

  lemma OnePiece(n: nat, k: nat, s: nat, b: nat)
    requires k >= 1 && s >= 1 && Base(k, s) >= 1 && n <= Base(k, s) && b < k
    ensures LaneSize(n, k, s, b) <= s
  {
    hide Base, Whole, Rest;
    BaseStep(0, s);
    BaseStep(0, Base(k, s));
    if n < Base(k, s) { WholeIs(n, Base(k, s), 0, n); } else { WholeIs(n, Base(k, s), 1, 0); }
  }

  /** What `workerPerformRead` has done before block `b`. */
  ghost predicate Performing(reader: Reader, workers: seq<BlockWorker>, data: seq<Byte>, from: seq<nat>, b: nat)
    reads reader, reader.buf, workers
  {
    var k, s := reader.stripeK, reader.streamingSize;
    && reader.Valid() && |workers| == |from| == k && |data| == reader.bufSize && b <= k && Base(k, s) >= 1
    && reader.bufHandledSize == reader.bufWritedSize == SizesBelow(reader.bufSize, k, s, b) && reader.curInFlightReq == 0
    && WindowFits(reader) && Steady(reader.moments, reader.maxInFlightReq) && AllServed(workers, from, |data|, k, s, b) && AllServe(workers, from, data, k, s, b)
    && Filled(reader.buf[..], data, k, s, b, 0)
  }

  /** One round of the loop over the blocks. */
  method ReadNextBlock(reader: Reader, ghost workers: seq<BlockWorker>, worker: BlockWorker, startOffset: nat, margin: nat,
      ghost data: seq<Byte>, ghost from: seq<nat>, ghost b: nat)
    requires Performing(reader, workers, data, from, b) && margin == Base(reader.stripeK, reader.streamingSize)
    requires b < reader.stripeK && startOffset == Base(b, reader.streamingSize) < reader.bufSize
    requires workers[b] == worker && forall c :: 0 <= c < |workers| && c != b ==> workers[c] != worker
    modifies reader`bufHandledSize, reader`bufWritedSize, reader`curInFlightReq, reader`moments, reader.buf, worker`asked, worker`got
    ensures Performing(reader, workers, data, from, b + 1)
  {
    hide Base, Serves, LaneSize, Filled;
    StartBlock(reader, worker, data, b);
    StartReadECBlock(reader, worker, startOffset, margin, data, b);
    if reader.maxInFlightReq < 2 { OnePiece(|data|, reader.stripeK, reader.streamingSize, b); }
    WholeLane(reader, data, b);
  }

  lemma WholeLane(reader: Reader, data: seq<Byte>, b: nat)
    requires reader.Valid() && |data| == reader.bufSize && b < reader.stripeK && WindowFits(reader) && Base(reader.stripeK, reader.streamingSize) >= 1
    ensures var total := LaneSize(|data|, reader.stripeK, reader.streamingSize, b);
      (if reader.maxInFlightReq >= 2 then total else Taken(total, reader.streamingSize, 1)) == total
  {
    hide Base, LaneSize;
    BaseStep(0, reader.streamingSize);
    if reader.maxInFlightReq < 2 { OnePiece(|data|, reader.stripeK, reader.streamingSize, b); }
  }

  /** `workerPerformRead`: when it returns, the buffer holds the bytes, every byte has been asked for
      and received exactly once, and nothing is under way. */
  method WorkerPerformRead(reader: Reader, workers: seq<BlockWorker>, ghost data: seq<Byte>, ghost from: seq<nat>)
    requires reader.Valid() && WindowFits(reader) && |data| == reader.bufSize
    requires reader.bufHandledSize == reader.bufWritedSize == 0 && Steady(reader.moments, reader.maxInFlightReq)
    requires |workers| == |from| == reader.stripeK && forall c, d :: 0 <= c < d < |workers| ==> workers[c] != workers[d]
    requires AllServe(workers, from, data, reader.stripeK, reader.streamingSize, 0)
    modifies reader`bufHandledSize, reader`bufWritedSize, reader`curInFlightReq, reader`moments, reader.buf, workers
    ensures Steady(reader.moments, reader.maxInFlightReq)
    ensures reader.buf[..reader.bufSize] == data
    ensures reader.bufHandledSize == reader.bufWritedSize == reader.bufSize && reader.curInFlightReq == 0
    ensures Base(reader.stripeK, reader.streamingSize) >= 1
    ensures AllServed(workers, from, |data|, reader.stripeK, reader.streamingSize, reader.stripeK)
  {
    hide Base, Serves, LaneSize, Filled, PieceInPlace, AllServe, AllServed;
    var margin := Base(reader.stripeK, reader.streamingSize);
    reader.curInFlightReq := 0;
    var startOffset: nat := 0;
    var b: nat := 0;
    StartPerforming(reader, workers, data, from);
    while reader.bufWritedSize < reader.bufSize
      invariant Performing(reader, workers, data, from, b) && startOffset == Base(b, reader.streamingSize)
      decreases reader.stripeK - b
    {
      MissingBytes(reader.bufSize, reader.stripeK, reader.streamingSize, b);
      ReadNextBlock(reader, workers, workers[b], startOffset, margin, data, from, b);
      BaseStep(b, reader.streamingSize);
      startOffset := startOffset + reader.streamingSize;
      b := b + 1;
    }
    EndPerforming(reader, workers, data, from, b);
  }

  lemma StartPerforming(reader: Reader, workers: seq<BlockWorker>, data: seq<Byte>, from: seq<nat>)
    requires reader.Valid() && WindowFits(reader) && Steady(reader.moments, reader.maxInFlightReq)
    requires |data| == reader.bufSize && |workers| == |from| == reader.stripeK
    requires reader.bufHandledSize == reader.bufWritedSize == reader.curInFlightReq == 0
    requires AllServe(workers, from, data, reader.stripeK, reader.streamingSize, 0)
    ensures Performing(reader, workers, data, from, 0) && Base(0, reader.streamingSize) == 0
  {
    StripePositive(reader.stripeK, reader.streamingSize);
    BaseStep(0, reader.streamingSize);
    hide Serves, LaneSize, PieceInPlace;
    NothingFilled(reader.buf[..], data, reader.stripeK, reader.streamingSize);
  }

  lemma EndPerforming(reader: Reader, workers: seq<BlockWorker>, data: seq<Byte>, from: seq<nat>, b: nat)
    requires Performing(reader, workers, data, from, b) && reader.bufWritedSize >= reader.bufSize
    ensures reader.buf[..reader.bufSize] == data && reader.bufWritedSize == reader.bufSize
    ensures AllServed(workers, from, |data|, reader.stripeK, reader.streamingSize, reader.stripeK)
  {
    hide Base, Serves, LaneSize, Filled, PieceInPlace;
    var k, s := reader.stripeK, reader.streamingSize;
    AllRead(data, k, s, b);
    SizesGrow(reader.bufSize, k, s, b, k);
    SizesSum(reader.bufSize, k, s);
    FilledAll(reader.buf[..], data, k, s, b);
  }

  lemma NothingFilled(buf: seq<Byte>, data: seq<Byte>, k: nat, s: nat)
    requires |data| <= |buf|
    ensures Filled(buf, data, k, s, 0, 0)
  {
  }

  lemma StartBlock(reader: Reader, worker: BlockWorker, data: seq<Byte>, b: nat)
    requires reader.Valid() && worker.Valid() && worker.asked == worker.got && b < reader.stripeK && |data| == reader.bufSize
    requires Base(reader.stripeK, reader.streamingSize) >= 1 && Serves(worker.content, worker.got, data, reader.stripeK, reader.streamingSize, b)
    requires reader.bufHandledSize == reader.bufWritedSize && reader.curInFlightReq == 0 && Steady(reader.moments, reader.maxInFlightReq)
    requires Filled(reader.buf[..], data, reader.stripeK, reader.streamingSize, b, 0)
    ensures Reading(reader, worker, data, b, worker.got, reader.bufWritedSize, 0, 0)
  {
    hide Serves, Filled, LaneSize, Base;
    BaseStep(0, reader.streamingSize);
  }

  /** Nothing is missing: the later blocks have no byte of this buffer. */
  lemma AllRead(data: seq<Byte>, k: nat, s: nat, b: nat)
    requires k >= 1 && s >= 1 && Base(k, s) >= 1 && b <= k && SizesBelow(|data|, k, s, b) >= |data|
    ensures forall c: nat :: b <= c < k ==> LaneSize(|data|, k, s, c) == 0
    ensures b < k ==> Base(b, s) >= |data|
  {
    hide Base, LaneSize;
    SizesSum(|data|, k, s);
    forall c: nat | b <= c < k ensures LaneSize(|data|, k, s, c) == 0 { SizesRest(|data|, k, s, b, c); }
    if b < k {
      BaseStep(0, Base(k, s));
      PieceAt(|data|, k, s, b, 0);
      BaseStep(0, s);
    }
  }

  /** Later blocks only add to the sum. */
  lemma {:induction false} SizesRest(n: nat, k: nat, s: nat, b: nat, c: nat)
    requires Base(k, s) >= 1 && b <= c < k && SizesBelow(n, k, s, b) >= SizesBelow(n, k, s, k)
    ensures LaneSize(n, k, s, c) == 0
  {
    hide LaneSize, Base;
    SizesGrow(n, k, s, b, c);
    SizesGrow(n, k, s, c + 1, k);
  }

  lemma {:induction false} SizesGrow(n: nat, k: nat, s: nat, b: nat, c: nat)
    requires Base(k, s) >= 1 && b <= c
    ensures SizesBelow(n, k, s, b) <= SizesBelow(n, k, s, c)
    decreases c
  {
    if b < c { SizesGrow(n, k, s, b, c - 1); }
  }

  /** Every byte lies in some piece. */
  lemma FilledAll(buf: seq<Byte>, data: seq<Byte>, k: nat, s: nat, b: nat)
    requires k >= 1 && s >= 1 && Filled(buf, data, k, s, b, 0) && b <= k && (b < k ==> Base(b, s) >= |data|)
    ensures |data| <= |buf| && buf[..|data|] == data
  {
    hide Base, Whole, Rest;
    forall p: nat | p < |data| ensures buf[p] == data[p] {
      StripePositive(k, s);
      var t := Base(k, s);
      WholeRest(p, t);
      var j, r := Whole(p, t), Rest(p, t);
      WholeRest(r, s);
      var c := Whole(r, s);
      if c >= k { if c > k { BaseBefore(k, c, s); } }
      if b < k && c >= b { if c > b { BaseBefore(b, c, s); } }
      assert PieceInPlace(buf, data, k, s, c, j);
    }
  }
}
