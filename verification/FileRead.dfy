/** Reading a whole file back, buffer by buffer: whatever the buffer sizes, the same bytes return. */
module FileRead {
  import opened Bytes
  import opened RowMajor
  import opened Striping
  import opened StripeRead
  import opened FileParts

  function Sum(sizes: seq<nat>): nat
    decreases |sizes|
  {
    if sizes == [] then 0 else Sum(sizes[..|sizes| - 1]) + sizes[|sizes| - 1]
  }

  /** The bytes that buffers of these sizes are to receive. */
  function PartsOf(file: seq<Byte>, sizes: seq<nat>): (parts: seq<seq<Byte>>)
    requires Sum(sizes) <= |file|
    ensures |parts| == |sizes| && forall i :: 0 <= i < |sizes| ==> |parts[i]| == sizes[i]
    decreases |sizes|
  {
    if sizes == [] then []
    else
      var front := sizes[..|sizes| - 1];
      PartsOf(file, front) + [file[Sum(front)..Sum(sizes)]]
  }

  lemma {:induction false} PartsJoin(file: seq<Byte>, sizes: seq<nat>)
    requires Sum(sizes) <= |file|
    ensures Joined(PartsOf(file, sizes)) == file[..Sum(sizes)]
    decreases |sizes|
  {
    if sizes != [] {
      var front := sizes[..|sizes| - 1];
      PartsJoin(file, front);
      JoinedMore(PartsOf(file, front), file[Sum(front)..Sum(sizes)]);
    }
  }

  /** Read number `i` finds exactly its bytes: the cursor of every block stands at the end of what
      the earlier reads took, and the next bytes there are the lane of read `i`. */
  lemma EveryReadIsServed(file: seq<Byte>, gets: seq<seq<Byte>>, k: nat, s: nat, b: nat, i: nat)
    requires k >= 1 && s >= 1 && b < k && Base(k, s) >= 1 && Cut(gets, Base(k, s)) && Joined(gets) == file && i < |gets|
    ensures Serves(Lane(file, k, s, b), |Lane(Joined(gets[..i]), k, s, b)|, gets[i], k, s, b)
    ensures |Lane(Joined(gets[..i + 1]), k, s, b)| == |Lane(Joined(gets[..i]), k, s, b)| + LaneSize(|gets[i]|, k, s, b)
  {
    hide Base, Whole, Rest, Lane, LaneSize;
    var t := Base(k, s);
    var before, after := Joined(gets[..i]), Joined(gets[i + 1..]);
    JoinedSplit(gets, i + 1);
    assert gets[..i + 1][..i] == gets[..i];
    assert Joined(gets[..i + 1]) == before + gets[i];
    WholeParts(gets[..i], t);
    WholeRest(|before|, t);
    LaneConcat(before, gets[i], k, s, b, Whole(|before|, t));
    LaneLength(gets[i], k, s, b);
    if i < |gets| - 1 {
      WholeParts(gets[..i + 1], t);
      WholeRest(|before + gets[i]|, t);
      LaneConcat(before + gets[i], after, k, s, b, Whole(|before + gets[i]|, t));
    } else {
      assert after == [];
      assert file == before + gets[i];
    }
  }

  // ----- the whole file

  /** Where the cursor of each block stands after the first `i` reads. */
  ghost function Cursors(gets: seq<seq<Byte>>, k: nat, s: nat, i: nat): (from: seq<nat>)
    requires k >= 1 && s >= 1 && i <= |gets|
    ensures |from| == k && forall c: nat :: c < k ==> from[c] == |Lane(Joined(gets[..i]), k, s, c)|
  {
    seq(k, c requires 0 <= c < k => |Lane(Joined(gets[..i]), k, s, c)|)
  }

  /** The blocks hold `file`; `i` reads have been served. */
  ghost predicate ReadSoFar(workers: seq<BlockWorker>, file: seq<Byte>, gets: seq<seq<Byte>>, k: nat, s: nat, i: nat)
    requires k >= 1 && s >= 1
    reads workers
  {
    && |workers| == k && Base(k, s) >= 1 && Cut(gets, Base(k, s)) && Joined(gets) == file && i <= |gets|
    && forall c: nat :: c < k ==>
         workers[c].content == Lane(file, k, s, c) && workers[c].Valid() && workers[c].asked == workers[c].got == Cursors(gets, k, s, i)[c]
  }

  lemma NextServed(workers: seq<BlockWorker>, file: seq<Byte>, gets: seq<seq<Byte>>, k: nat, s: nat, i: nat)
    requires k >= 1 && s >= 1 && ReadSoFar(workers, file, gets, k, s, i) && i < |gets|
    ensures AllServe(workers, Cursors(gets, k, s, i), gets[i], k, s, 0)
  {
    hide Base, Lane, Serves, Cut;
    forall c: nat | c < k ensures Serves(workers[c].content, Cursors(gets, k, s, i)[c], gets[i], k, s, c) {
      EveryReadIsServed(file, gets, k, s, c, i);
    }
  }

  lemma ServedNext(workers: seq<BlockWorker>, file: seq<Byte>, gets: seq<seq<Byte>>, k: nat, s: nat, i: nat)
    requires k >= 1 && s >= 1 && |workers| == k && Base(k, s) >= 1 && Cut(gets, Base(k, s)) && Joined(gets) == file && i < |gets|
    requires AllServed(workers, Cursors(gets, k, s, i), |gets[i]|, k, s, k)
    requires forall c: nat :: c < k ==> workers[c].content == Lane(file, k, s, c)
    ensures ReadSoFar(workers, file, gets, k, s, i + 1)
  {
    hide Base, Lane, LaneSize, Cut;
    forall c: nat | c < k ensures workers[c].got == Cursors(gets, k, s, i + 1)[c] { EveryReadIsServed(file, gets, k, s, c, i); }
  }

  /** One buffer. */
  method ReadBuffer(workers: seq<BlockWorker>, size: nat, k: nat, s: nat, maxInFlightReq: nat, ghost file: seq<Byte>,
      ghost gets: seq<seq<Byte>>, ghost i: nat) returns (bytes: seq<Byte>)
    requires k >= 1 && s >= 1 && maxInFlightReq >= 1 && (maxInFlightReq >= 2 || size <= Base(k, s))
    requires forall c, d :: 0 <= c < d < |workers| ==> workers[c] != workers[d]
    requires ReadSoFar(workers, file, gets, k, s, i) && i < |gets| && size == |gets[i]|
    modifies workers
    ensures bytes == gets[i] && ReadSoFar(workers, file, gets, k, s, i + 1)
  {
    hide Base, Lane, LaneSize, Cut, AllServe, AllServed, Steady;
    var buf := new Byte[size];
    var reader := new Reader(buf, size, k, s, maxInFlightReq);
    NextServed(workers, file, gets, k, s, i);
    NothingYet(maxInFlightReq);
    WorkerPerformRead(reader, workers, gets[i], Cursors(gets, k, s, i));
    bytes := reader.buf[..size];
    ServedNext(workers, file, gets, k, s, i);
  }

  lemma NothingYet(maxInFlightReq: nat)
    ensures Steady([], maxInFlightReq)
  {
  }

  /** All sizes but the last are whole stripes. */
  ghost predicate CutSizes(sizes: seq<nat>, t: nat) {
    t >= 1 ==> forall i :: 0 <= i < |sizes| - 1 ==> Rest(sizes[i], t) == 0
  }

  /** The whole file, in buffers of the given sizes: exactly the bytes of the file come back, and every
      byte of every block has been asked for and received exactly once. */
  method ReadFile(workers: seq<BlockWorker>, sizes: seq<nat>, k: nat, s: nat, maxInFlightReq: nat, ghost file: seq<Byte>) returns (got: seq<Byte>)
    requires k >= 1 && s >= 1 && maxInFlightReq >= 1 && |workers| == k && Sum(sizes) == |file|
    requires forall c, d :: 0 <= c < d < |workers| ==> workers[c] != workers[d]
    requires forall c: nat :: c < k ==> workers[c].content == Lane(file, k, s, c) && workers[c].asked == workers[c].got == 0
    requires forall i :: 0 <= i < |sizes| ==> maxInFlightReq >= 2 || sizes[i] <= Base(k, s)
    requires CutSizes(sizes, Base(k, s))
    modifies workers
    ensures got == file
    ensures forall c: nat :: c < k ==> workers[c].asked == workers[c].got == |workers[c].content|
  {
    hide Base, Lane, Rest, ReadSoFar;
    StripePositive(k, s);
    ghost var gets := PartsOf(file, sizes);
    PartsJoin(file, sizes);
    assert file[..Sum(sizes)] == file;
    StartReading(workers, file, gets, k, s);
    got := [];
    var i: nat := 0;
    while i < |sizes|
      invariant i <= |sizes| && got == Joined(gets[..i]) && ReadSoFar(workers, file, gets, k, s, i)
    {
      var bytes := ReadBuffer(workers, sizes[i], k, s, maxInFlightReq, file, gets, i);
      assert gets[..i + 1] == gets[..i] + [gets[i]];
      JoinedMore(gets[..i], gets[i]);
      got := got + bytes;
      i := i + 1;
    }
    assert gets[..i] == gets;
    EndReading(workers, file, gets, k, s);
  }

  lemma StartReading(workers: seq<BlockWorker>, file: seq<Byte>, gets: seq<seq<Byte>>, k: nat, s: nat)
    requires k >= 1 && s >= 1 && |workers| == k && Base(k, s) >= 1 && Cut(gets, Base(k, s)) && Joined(gets) == file
    requires forall c: nat :: c < k ==> workers[c].content == Lane(file, k, s, c) && workers[c].asked == workers[c].got == 0
    ensures ReadSoFar(workers, file, gets, k, s, 0)
  {
    hide Base, Lane, Cut;
    forall c: nat | c < k ensures Cursors(gets, k, s, 0)[c] == 0 { LaneNone(Joined(gets[..0]), k, s, c); }
  }

  lemma EndReading(workers: seq<BlockWorker>, file: seq<Byte>, gets: seq<seq<Byte>>, k: nat, s: nat)
    requires k >= 1 && s >= 1 && ReadSoFar(workers, file, gets, k, s, |gets|)
    ensures |workers| == k && forall c: nat :: c < k ==> workers[c].asked == workers[c].got == |workers[c].content|
  {
    assert gets[..|gets|] == gets;
  }
}
