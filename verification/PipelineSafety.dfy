/** What every interleaving of the put and get threads keeps: no buffer is refilled before its
    content has been written, the chunks are written in the order in which they were read, and the
    flags match the semaphores. */
module PipelineSafety {
  import opened Pipeline

  // ----- the writer's share

  /** The writer is working on a chunk it has not appended yet, or not acknowledged yet. */
  function Taken(w: WriterPc): nat { if w == WCheckStop || w == WWrite then 1 else 0 }

  function Unacked(w: WriterPc): nat { if w == WAdvance || w == WPostAck then 1 else 0 }

  predicate Resting(w: WriterPc) { w == WHead || w == WAwaitJob }

  /** The tokens of the two semaphores between the threads, and the write index. */
  ghost predicate Tokens(c: Job, s: State)
    requires c.bufNum >= 1
  {
    && s.writer != WriterDone
    && |s.cur| + Taken(s.writer) + s.writeJob == s.posted
    && s.acked + s.writeOver + Unacked(s.writer) == |s.cur|
    && (if s.writer == WAdvance then |s.cur| >= 1 && s.wIdx == InRing(|s.cur| - 1, c.bufNum) else s.wIdx == InRing(|s.cur|, c.bufNum))
  }

  /** The chunks read but not written are in their slots; what is written is a prefix of the file. */
  ghost predicate Ring(c: Job, s: State)
    requires c.bufNum >= 1 && s.file < |c.files|
  {
    var f := c.files[s.file];
    && |s.cur| <= s.posted <= s.read <= |f| && s.cur == f[..|s.cur|]
    && s.read <= s.acked + c.bufNum && |s.bufs| == c.bufNum
    && forall i: nat :: |s.cur| <= i < s.read ==> InSlot(c, s.bufs, f, i)
  }

  ghost predicate InSlot(c: Job, bufs: seq<Chunk>, f: seq<Chunk>, i: nat)
    requires c.bufNum >= 1 && |bufs| == c.bufNum && i < |f|
  {
    bufs[InRing(i, c.bufNum)] == f[i]
  }

  // ----- where the reader is

  /** How the counters, the flags and the read index stand at each point of the reader. */
  ghost predicate ReaderAt(c: Job, s: State)
    requires c.bufNum >= 1 && s.file < |c.files|
  {
    var n := |c.files[s.file]|;
    && |s.flags| == c.bufNum && s.rIdx < c.bufNum && s.acked <= s.posted
    && match s.reader
       case CheckStop => s.read == s.posted == s.acked == 0 && s.rIdx == 0 && Set(s.flags, 0) == 0
       case Check => s.read == s.posted && s.rIdx == InRing(s.posted, c.bufNum) && Set(s.flags, 0) == s.posted - s.acked
                     && (c.tool.Get? ==> s.read < n)
       case AwaitAck => s.read == s.posted && s.rIdx == InRing(s.posted, c.bufNum) && Set(s.flags, 0) == s.posted - s.acked && s.flags[s.rIdx]
                        && (c.tool.Get? ==> s.read < n)
       case Mark => c.tool.Put? && s.read == s.posted && s.rIdx == InRing(s.posted, c.bufNum)
                    && Set(s.flags, 0) == s.posted - s.acked + if s.flags[s.rIdx] then 1 else 0
       case Fill => s.read == s.posted && s.rIdx == InRing(s.posted, c.bufNum)
                    && (if c.tool.Put? then s.flags[s.rIdx] && Set(s.flags, 0) == s.posted - s.acked + 1
                        else !s.flags[s.rIdx] && Set(s.flags, 0) == s.posted - s.acked && s.read < n)
       case Unmark => c.tool.Put? && s.read == s.posted == n && s.flags[s.rIdx] && Set(s.flags, 0) == s.posted - s.acked + 1
       case PostJob => s.read == s.posted + 1 && Set(s.flags, 0) == s.posted - s.acked + 1
                       && s.rIdx == InRing(if c.tool.Put? then s.posted else s.posted + 1, c.bufNum)
       case Advance => c.tool.Put? && s.read == s.posted >= 1 && s.rIdx == InRing(s.posted - 1, c.bufNum) && Set(s.flags, 0) == s.posted - s.acked
       case Drain(i) => s.read == s.posted == n && Set(s.flags, 0) == s.posted - s.acked && i <= c.bufNum && forall j :: 0 <= j < i ==> !s.flags[j]
       case DrainAck(i) => s.read == s.posted == n && Set(s.flags, 0) == s.posted - s.acked && i < c.bufNum && s.flags[i]
                           && forall j :: 0 <= j < i ==> !s.flags[j]
       case PostEnd => s.read == s.posted == s.acked == n && Set(s.flags, 0) == 0
       case _ => false
  }

  /** Nothing is under way between the two workers. */
  ghost predicate Quiet(c: Job, s: State) {
    && |s.flags| == |s.bufs| == c.bufNum && s.rIdx < c.bufNum && Set(s.flags, 0) == 0
    && s.writeJob == s.writeOver == 0 && s.posted == s.acked == |s.cur|
  }

  predicate Idle(r: ReaderPc) { r == Head || r == AwaitStart }

  // ----- the phases of a file

  ghost predicate Between(c: Job, s: State) {
    && !s.stop && s.start == 0 && s.end == 0 && s.finished == s.file && Idle(s.reader) && Resting(s.writer) && Quiet(c, s)
  }

  ghost predicate Fresh(c: Job, s: State) {
    s.file < |c.files| && s.read == s.posted == s.acked == 0 && s.cur == [] && s.rIdx == s.wIdx == 0
  }

  ghost predicate Started(c: Job, s: State) {
    !s.stop && s.start == 1 && s.end == 0 && s.finished == s.file && Idle(s.reader) && Resting(s.writer) && Quiet(c, s) && Fresh(c, s)
  }

  ghost predicate Working(c: Job, s: State) {
    && c.bufNum >= 1 && !s.stop && s.start == 0 && s.end == 0 && s.finished == s.file < |c.files|
    && Tokens(c, s) && Ring(c, s) && ReaderAt(c, s)
  }

  ghost predicate Ended(c: Job, s: State) {
    && !s.stop && s.start == 0 && s.end == 1 && s.file < |c.files| && s.finished == s.file + 1 && Idle(s.reader) && Resting(s.writer)
    && Quiet(c, s) && s.cur == c.files[s.file]
  }

  /** After the last file: the stop flag is set and everything winds down. */
  ghost predicate Stopping(c: Job, s: State) {
    && s.stop && s.end == 0 && s.writeOver == 0 && s.file == s.finished == |c.files|
    && |s.flags| == |s.bufs| == c.bufNum && s.rIdx < c.bufNum && Set(s.flags, 0) == 0
    && (match s.reader
        case Head => true
        case AwaitStart => s.main == MPostStop || s.start == 1
        case CheckStop => s.main != MPostStop
        case Flush(i) => i <= c.bufNum
        case PostLast => true
        case ReaderDone => true
        case _ => false)
    && (if s.reader == ReaderDone then
          (s.writeJob == 1 && (Resting(s.writer) || s.writer == WriterDone))
          || (s.writeJob == 0 && (s.writer == WCheckStop || s.writer == WriterDone))
        else s.writeJob == 0 && (Resting(s.writer) || s.writer == WriterDone))
    && (match s.main
        case MPostStop => s.start == 0
        case MJoinReader => s.start <= 1
        case MJoinWriter => s.reader == ReaderDone
        case MainDone => s.reader == ReaderDone && s.writer == WriterDone
        case _ => false)
  }

  ghost predicate Phase(c: Job, s: State) {
    match s.main
    case MSetup => Between(c, s)
    case MPostStart => Between(c, s) && Fresh(c, s)
    case MAwaitEnd => Started(c, s) || Working(c, s) || Ended(c, s)
    case _ => Stopping(c, s)
  }

  ghost predicate Inv(c: Job, s: State) {
    && c.Valid() && s.file <= |c.files| && s.done == c.files[..s.file] && Phase(c, s)
  }

  lemma InitialInv(c: Job, s: State)
    requires Initial(c, s)
    ensures Inv(c, s)
  {
    NoneSet(s.flags, 0);
  }

  // ----- every step keeps the invariant

  lemma MainKeeps(c: Job, s: State, s': State)
    requires Inv(c, s) && MainStep(c, s) == Some(s')
    ensures Inv(c, s')
  {
    hide Set, InRing, Tokens, Ring, ReaderAt;
    if s.main == MAwaitEnd { assert Ended(c, s); }
  }

  lemma RestingWriterKeeps(c: Job, s: State, s': State)
    requires Inv(c, s) && WriterStep(c, s) == Some(s') && !(s.main == MAwaitEnd && Working(c, s))
    ensures Inv(c, s')
  {
    hide Set, InRing, Tokens, Ring, ReaderAt;
  }

  lemma WorkingWriterKeeps(c: Job, s: State, s': State)
    requires c.Valid() && Working(c, s) && WriterStep(c, s) == Some(s')
    ensures Working(c, s')
  {
    hide Set, InRing, Ring;
    RingSizes(c, s);
    if s.writer == WWrite {
      WriteKeepsRing(c, s, s');
    } else {
      if s.writer == WAdvance { NextSlot(|s.cur| - 1, c.bufNum); }
      RingKept(c, s, s');
    }
  }

  lemma RingSizes(c: Job, s: State)
    requires c.bufNum >= 1 && s.file < |c.files| && Ring(c, s)
    ensures |s.bufs| == c.bufNum && |s.cur| <= s.posted <= s.read
  {
  }

  /** The writer takes the next chunk of the file from its slot. */
  lemma WriteKeepsRing(c: Job, s: State, s': State)
    requires c.bufNum >= 1 && s.file < |c.files| && Ring(c, s) && |s.cur| < s.posted && s.wIdx == InRing(|s.cur|, c.bufNum)
    requires s.writer == WWrite && WriterStep(c, s) == Some(s')
    ensures Ring(c, s')
  {
    hide InRing;
    var f, n := c.files[s.file], |s.cur|;
    assert InSlot(c, s.bufs, f, n);
    assert f[..n + 1] == f[..n] + [f[n]];
    forall i: nat | n + 1 <= i < s.read ensures InSlot(c, s'.bufs, f, i) { assert InSlot(c, s.bufs, f, i); }
  }

  lemma IdleReaderKeeps(c: Job, s: State, s': State)
    requires Inv(c, s) && ReaderStep(c, s) == Some(s') && !(s.main == MAwaitEnd && Working(c, s))
    ensures Inv(c, s')
  {
    hide Set, InRing;
    NextSlot(0, c.bufNum);
    if s.main == MAwaitEnd {
      hide Stopping, Between;
      if Started(c, s) && s.reader == AwaitStart {
        NothingInRing(c, s');
        assert Working(c, s');
      }
    } else if s.stop {
      hide Between, Started, Working, Ended;
      SetBound(s.flags, 0);
    } else {
      hide Started, Working, Ended;
    }
  }

  lemma NothingInRing(c: Job, s: State)
    requires c.bufNum >= 1 && s.file < |c.files| && s.read == s.posted == s.acked == |s.cur| == 0 && |s.bufs| == c.bufNum
    ensures Ring(c, s)
  {
  }

  /** The parts of `Working` that a step of the reader leaves alone. */
  lemma RingKept(c: Job, s: State, s': State)
    requires c.bufNum >= 1 && s.file < |c.files| && Ring(c, s)
    requires s'.file == s.file && s'.cur == s.cur && s'.bufs == s.bufs && s'.read == s.read
    requires s.acked <= s'.acked && s.posted <= s'.posted <= s.read
    ensures Ring(c, s')
  {
    forall i: nat | |s'.cur| <= i < s'.read ensures InSlot(c, s'.bufs, c.files[s'.file], i) { assert InSlot(c, s.bufs, c.files[s.file], i); }
  }

  /** Filling a slot: the chunk that was there has been written, and the writer is elsewhere. */
  lemma FillKeeps(c: Job, s: State, s': State)
    requires c.Valid() && Working(c, s) && s.reader == Fill && ReaderStep(c, s) == Some(s') && s'.reader == PostJob
    ensures Working(c, s')
  {
    hide Set, InRing;
    var f, n := c.files[s.file], c.bufNum;
    SetBound(s.flags, 0);
    SetUpdate(s.flags, 0, s.rIdx, true);
    assert s.posted - s.acked < n;
    NextSlot(s.posted, n);
    forall i: nat | |s.cur| <= i < s'.read ensures InSlot(c, s'.bufs, f, i) {
      if i < s.read {
        assert InSlot(c, s.bufs, f, i);
        SlotsDiffer(i, s.posted, n);
      }
    }
  }

  lemma CheckKeeps(c: Job, s: State, s': State)
    requires c.Valid() && Working(c, s) && ReaderStep(c, s) == Some(s')
    requires s.reader in {CheckStop, Check} || (s.reader == Fill && s'.reader == Unmark)
    ensures Working(c, s')
  {
    hide Set, InRing, Ring;
    RingSizes(c, s);
    NextSlot(0, c.bufNum);
    RingKept(c, s, s');
  }

  lemma AckKeeps(c: Job, s: State, s': State)
    requires c.Valid() && Working(c, s) && ReaderStep(c, s) == Some(s') && s.reader in {AwaitAck, Mark, Unmark}
    ensures Working(c, s')
  {
    hide Set, InRing, Ring;
    RingSizes(c, s);
    SetBound(s.flags, 0);
    SetUpdate(s.flags, 0, s.rIdx, s.reader == Mark);
    RingKept(c, s, s');
  }

  lemma PostKeeps(c: Job, s: State, s': State)
    requires c.Valid() && Working(c, s) && ReaderStep(c, s) == Some(s') && s.reader in {PostJob, Advance}
    ensures Working(c, s')
  {
    hide Set, InRing, Ring;
    RingSizes(c, s);
    if s.reader == Advance { NextSlot(s.posted - 1, c.bufNum); }
    RingKept(c, s, s');
  }

  lemma DrainKeeps(c: Job, s: State, s': State)
    requires c.Valid() && Working(c, s) && ReaderStep(c, s) == Some(s') && (s.reader.Drain? || s.reader.DrainAck?)
    ensures Working(c, s')
  {
    hide Set, InRing, Ring;
    RingSizes(c, s);
    RingKept(c, s, s');
    if s.reader.Drain? {
      if s.reader.i == c.bufNum { NoneSet(s.flags, 0); }
    } else {
      SetUpdate(s.flags, 0, s.reader.i, false);
    }
  }

  lemma PostEndKeeps(c: Job, s: State, s': State)
    requires Inv(c, s) && s.main == MAwaitEnd && Working(c, s) && ReaderStep(c, s) == Some(s') && s.reader == PostEnd
    ensures Inv(c, s')
  {
    hide Set, InRing;
    var f := c.files[s.file];
    assert f[..|f|] == f;
    assert Ended(c, s');
  }

  lemma ReaderKeeps(c: Job, s: State, s': State)
    requires Inv(c, s) && ReaderStep(c, s) == Some(s')
    ensures Inv(c, s')
  {
    hide Tokens, Ring, Set, Started, Ended, Between, Stopping;
    if s.main == MAwaitEnd && Working(c, s) {
      if s.reader == PostEnd {
        PostEndKeeps(c, s, s');
      } else if s.reader == Fill && s'.reader == PostJob {
        FillKeeps(c, s, s');
      } else if s.reader in {PostJob, Advance} {
        PostKeeps(c, s, s');
      } else if s.reader.Drain? || s.reader.DrainAck? {
        DrainKeeps(c, s, s');
      } else if s.reader in {AwaitAck, Mark, Unmark} {
        AckKeeps(c, s, s');
      } else {
        CheckKeeps(c, s, s');
      }
    } else {
      IdleReaderKeeps(c, s, s');
    }
  }

  /** Every step of every thread keeps the invariant. */
  lemma StepKeeps(c: Job, s: State, t: Thread, s': State)
    requires Inv(c, s) && Step(c, s, t) == Some(s')
    ensures Inv(c, s')
  {
    hide MainStep, ReaderStep, WriterStep, Phase, Working;
    match t
    case Reader => ReaderKeeps(c, s, s');
    case Main => MainKeeps(c, s, s');
    case Writer => WriterKeeps(c, s, s');
  }

  lemma WriterKeeps(c: Job, s: State, s': State)
    requires Inv(c, s) && WriterStep(c, s) == Some(s')
    ensures Inv(c, s')
  {
    if s.main == MAwaitEnd && Working(c, s) {
      WorkingWriterKeeps(c, s, s');
    } else {
      RestingWriterKeeps(c, s, s');
    }
    hide Tokens, Ring, Set, ReaderAt;
  }
}
