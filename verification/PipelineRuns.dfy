/** Whole runs of the put and get tools: safety in every reachable state, no deadlock, and
    termination with every chunk of every file written. */
module PipelineRuns {
  import opened Pipeline
  import opened PipelineSafety

  /** A run: every state follows from the one before by a step of some thread. */
  ghost predicate Run(c: Job, run: seq<State>) {
    && c.Valid() && run != [] && Initial(c, run[0])
    && forall i :: 0 <= i < |run| - 1 ==> Next(c, run[i], run[i + 1])
  }

  lemma {:induction false} RunInv(c: Job, run: seq<State>, i: nat)
    requires Run(c, run) && i < |run|
    ensures Inv(c, run[i])
  {
    hide Inv, Initial, Step;
    if i == 0 {
      InitialInv(c, run[0]);
    } else {
      RunInv(c, run, i - 1);
      assert Next(c, run[i - 1], run[i - 1 + 1]);
      var t :| Step(c, run[i - 1], t) == Some(run[i]);
      StepKeeps(c, run[i - 1], t, run[i]);
    }
  }

  // ----- safety

  /** When the reader fills a buffer, every chunk that was in it has been written and acknowledged,
      and the writer is not at that buffer. */
  lemma NoRefillBeforeWritten(c: Job, s: State, i: nat)
    requires Inv(c, s) && s.reader == Fill && i < s.read && InRing(i, c.bufNum) == s.rIdx
    ensures i < s.acked && i < |s.cur|
    ensures s.writer in {WCheckStop, WWrite} ==> s.wIdx != s.rIdx
  {
    SetBound(s.flags, 0);
    assert Working(c, s);
    if i + c.bufNum > s.posted { SlotsDiffer(i, s.posted, c.bufNum); }
    if s.writer in {WCheckStop, WWrite} { SlotsDiffer(|s.cur|, s.posted, c.bufNum); }
  }

  /** While the reader looks at the flags, the ones that are set are the chunks queued, being
      written, or acknowledged but not yet taken back. */
  lemma FlagsMatchSemaphores(c: Job, s: State)
    requires Inv(c, s) && s.reader in {Check, AwaitAck}
    ensures Set(s.flags, 0) == s.writeJob + Taken(s.writer) + Unacked(s.writer) + s.writeOver
  {
    assert Working(c, s);
  }

  /** At any time the finished files are complete and the current one is written as far as a prefix. */
  lemma WrittenInOrder(c: Job, s: State)
    requires Inv(c, s)
    ensures s.file <= |c.files| && s.done == c.files[..s.file]
    ensures s.main == MAwaitEnd ==> s.file < |c.files| && s.cur <= c.files[s.file]
    ensures s.main == MainDone ==> s.done == c.files
  {
    if s.main == MainDone { assert c.files[..|c.files|] == c.files; }
  }

  // ----- no deadlock

  /** A thread that can move. */
  lemma NoDeadlock(c: Job, s: State) returns (t: Thread)
    requires Inv(c, s) && s.main != MainDone
    ensures Step(c, s, t).Some?
  {
    hide Set, Ring;
    if MainStep(c, s).Some? {
      t := Main;
    } else if ReaderStep(c, s).Some? {
      t := Reader;
    } else {
      t := Writer;
      if s.main == MAwaitEnd { ReaderBlocked(c, s); } else { assert Stopping(c, s); }
    }
  }

  /** A reader that waits for an acknowledgement has a chunk out: the writer can move. */
  lemma ReaderBlocked(c: Job, s: State)
    requires Inv(c, s) && s.main == MAwaitEnd && MainStep(c, s) == None && ReaderStep(c, s) == None
    ensures WriterStep(c, s).Some?
  {
    assert Working(c, s);
    SetBound(s.flags, 0);
    assert s.reader == AwaitAck || s.reader.DrainAck?;
    if s.writer == WAwaitJob { assert s.posted > s.acked; }
    if s.writer == WWrite { NextSlot(|s.cur|, c.bufNum); }
  }

  // ----- every run ends

  /** What the reader still has to do for the files from `g` on and for the end, one step at a time. */
  function FilesLeft(c: Job, g: nat): nat
    decreases |c.files| - g
  {
    if g > |c.files| then 0
    else if g == |c.files| then 2 * c.bufNum + 7
    else 7 * |c.files[g]| + 2 * c.bufNum + 12 + FilesLeft(c, g + 1)
  }

  function ChunksLeft(c: Job, g: nat): nat
    decreases |c.files| - g
  {
    if g >= |c.files| then 0 else |c.files[g]| + ChunksLeft(c, g + 1)
  }

  /** Steps of the reader up to the end of the current file, or to its own end. */
  function ReaderLeft(c: Job, s: State): int {
    var n := if s.finished < |c.files| then |c.files[s.finished]| else 0;
    var flush := 2 * c.bufNum + 3;
    var check := 7 * (n - s.read) + 2 * c.bufNum + 8;
    match s.reader
    case Head => if s.finished < |c.files| then 7 * n + 2 * c.bufNum + 12 else flush + 3
    case AwaitStart => if s.finished < |c.files| then 7 * n + 2 * c.bufNum + 11 else flush + 2
    case CheckStop => if s.finished < |c.files| then 7 * n + 2 * c.bufNum + 10 else flush + 1
    case Check => check
    case AwaitAck => check - 1
    case Mark => check - 2
    case Fill => check - 3
    case Unmark => 2 * c.bufNum + 4
    case PostJob => check + 2
    case Advance => check + 1
    case Drain(i) => 2 * (c.bufNum - i) + 3
    case DrainAck(i) => 2 * (c.bufNum - i) + 2
    case PostEnd => 2
    case Flush(i) => 2 * (c.bufNum - i) + 3
    case FlushAck(i) => 2 * (c.bufNum - i) + 2
    case PostLast => 2
    case ReaderDone => 0
  }

  /** Jobs the writer has not taken: the chunks not yet written, and the last wake-up. */
  function JobsLeft(c: Job, s: State): int {
    var exit := if s.reader == ReaderDone && s.writeJob == 0 then 0 else 1;
    match s.main
    case MSetup => ChunksLeft(c, s.file) + exit
    case MPostStart => ChunksLeft(c, s.file) + exit
    case MAwaitEnd => ChunksLeft(c, s.file) - |s.cur| - Taken(s.writer) + exit
    case _ => exit
  }

  function WriterLeft(c: Job, s: State): int {
    match s.writer
    case WHead => 6 * JobsLeft(c, s) + 3
    case WAwaitJob => 6 * JobsLeft(c, s) + 2
    case WCheckStop => 6 * JobsLeft(c, s) + 7
    case WWrite => 6 * JobsLeft(c, s) + 6
    case WAdvance => 6 * JobsLeft(c, s) + 5
    case WPostAck => 6 * JobsLeft(c, s) + 4
    case WriterDone => 0
  }

  function MainLeft(c: Job, s: State): int {
    match s.main
    case MSetup => 3 * (|c.files| - s.file) + 5
    case MPostStart => 3 * (|c.files| - s.file) + 4
    case MAwaitEnd => 3 * (|c.files| - s.file) + 3
    case MPostStop => 4
    case MJoinReader => 3
    case MJoinWriter => 2
    case MainDone => 0
  }

  /** An upper bound on the steps left. */
  function Left(c: Job, s: State): int {
    FilesLeft(c, s.finished + 1) + ReaderLeft(c, s) + WriterLeft(c, s) + MainLeft(c, s)
  }

  lemma MainProgress(c: Job, s: State, s': State)
    requires Inv(c, s) && MainStep(c, s) == Some(s')
    ensures Left(c, s') < Left(c, s)
  {
    hide Set, Tokens, Ring, ReaderAt, FilesLeft;
    if s.main == MAwaitEnd { assert Ended(c, s); }
  }

  /** A step of the writer leaves the reader's and the main thread's work alone. */
  lemma WriterLeavesOthers(c: Job, s: State, s': State)
    requires c.bufNum >= 1 && WriterStep(c, s) == Some(s')
    ensures ReaderLeft(c, s') == ReaderLeft(c, s) && MainLeft(c, s') == MainLeft(c, s) && s'.finished == s.finished
  {
  }

  lemma WriterLeftDown(c: Job, s: State, s': State)
    requires Inv(c, s) && WriterStep(c, s) == Some(s')
    ensures WriterLeft(c, s') < WriterLeft(c, s)
  {
    hide Set, Ring, ReaderAt, ChunksLeft;
    if s.main == MAwaitEnd && Working(c, s) {
      WorkingReader(c, s);
      JobsTaken(c, s, s');
      hide Started, Ended, Stopping, Between, JobsLeft;
      WriterJobs(c, s);
    } else {
      WriterJobs(c, s);
    }
  }

  lemma WorkingReader(c: Job, s: State)
    requires Working(c, s)
    ensures s.reader != ReaderDone
  {
  }

  /** A working writer: taking a job or finishing one. */
  lemma JobsTaken(c: Job, s: State, s': State)
    requires c.bufNum >= 1 && WriterStep(c, s) == Some(s') && s.main == MAwaitEnd && !s.stop && s.reader != ReaderDone
    ensures JobsLeft(c, s') == JobsLeft(c, s) - if s.writer == WAwaitJob then 1 else 0
  {
  }

  /** There is a job left for a writer that waits or works. */
  lemma WriterJobs(c: Job, s: State)
    requires Inv(c, s)
    ensures JobsLeft(c, s) >= 0 && (s.writer == WAwaitJob && s.writeJob > 0 ==> JobsLeft(c, s) >= 1)
  {
    hide Set, ReaderAt;
    if s.main == MAwaitEnd && Working(c, s) { }
  }

  lemma WriterProgress(c: Job, s: State, s': State)
    requires Inv(c, s) && WriterStep(c, s) == Some(s')
    ensures Left(c, s') < Left(c, s)
  {
    hide Inv, FilesLeft, ReaderLeft, WriterLeft, MainLeft, WriterStep;
    WriterBufs(c, s);
    WriterLeavesOthers(c, s, s');
    WriterLeftDown(c, s, s');
  }

  lemma WriterBufs(c: Job, s: State)
    requires Inv(c, s)
    ensures c.bufNum >= 1
  {
  }

  /** A step of the reader leaves the writer's and the main thread's work alone. */
  lemma ReaderLeavesOthers(c: Job, s: State, s': State)
    requires c.bufNum >= 1 && ReaderStep(c, s) == Some(s')
    ensures WriterLeft(c, s') == WriterLeft(c, s) && MainLeft(c, s') == MainLeft(c, s)
  {
    JobsSame(c, s, s');
    hide JobsLeft;
  }

  lemma JobsSame(c: Job, s: State, s': State)
    requires c.bufNum >= 1 && ReaderStep(c, s) == Some(s')
    ensures JobsLeft(c, s') == JobsLeft(c, s) && s'.writer == s.writer && s'.main == s.main && s'.file == s.file
  {
  }

  /** The reader's own work, with the files it has not begun. */
  lemma WorkingReaderDown(c: Job, s: State, s': State)
    requires c.Valid() && Working(c, s) && ReaderStep(c, s) == Some(s')
    ensures FilesLeft(c, s'.finished + 1) + ReaderLeft(c, s') < FilesLeft(c, s.finished + 1) + ReaderLeft(c, s)
  {
    hide Set, Ring, Tokens, FilesLeft;
    ReadBound(c, s);
    if s.reader == PostEnd { NextFile(c, s); }
  }

  lemma ReadBound(c: Job, s: State)
    requires c.bufNum >= 1 && s.file < |c.files| && Ring(c, s)
    ensures s.read <= |c.files[s.file]|
  {
  }

  lemma NextFile(c: Job, s: State)
    requires s.finished < |c.files|
    ensures FilesLeft(c, s.finished + 1)
         == if s.finished + 1 < |c.files| then 7 * |c.files[s.finished + 1]| + 2 * c.bufNum + 12 + FilesLeft(c, s.finished + 2)
            else 2 * c.bufNum + 7
    ensures s.finished + 1 >= |c.files| ==> FilesLeft(c, s.finished + 2) == 0
  {
  }

  lemma IdleReaderDown(c: Job, s: State, s': State)
    requires Inv(c, s) && ReaderStep(c, s) == Some(s') && !(s.main == MAwaitEnd && Working(c, s))
    ensures FilesLeft(c, s'.finished + 1) + ReaderLeft(c, s') < FilesLeft(c, s.finished + 1) + ReaderLeft(c, s)
  {
    hide FilesLeft, Ring, Tokens, ReaderAt;
    SetBound(s.flags, 0);
  }

  lemma ReaderProgress(c: Job, s: State, s': State)
    requires Inv(c, s) && ReaderStep(c, s) == Some(s')
    ensures Left(c, s') < Left(c, s)
  {
    hide FilesLeft, ReaderLeft, WriterLeft, MainLeft, ReaderStep, Phase;
    ReaderLeavesOthers(c, s, s');
    if s.main == MAwaitEnd && Working(c, s) {
      WorkingReaderDown(c, s, s');
    } else {
      IdleReaderDown(c, s, s');
    }
  }

  lemma LeftBound(c: Job, s: State)
    requires Inv(c, s)
    ensures Left(c, s) >= 0
  {
    hide Set, Quiet;
    WriterJobs(c, s);
    ReaderLeftBound(c, s);
    hide JobsLeft, ReaderLeft, FilesLeft, Phase;
  }

  lemma ReaderLeftBound(c: Job, s: State)
    requires Inv(c, s)
    ensures ReaderLeft(c, s) >= 0
  {
    hide Set, Tokens;
    if s.main == MAwaitEnd && Working(c, s) { }
  }

  /** A run has at most as many steps as its first state allows. */
  lemma {:induction false} RunBounded(c: Job, run: seq<State>, i: nat)
    requires Run(c, run) && i < |run|
    ensures Left(c, run[i]) + i <= Left(c, run[0]) && Left(c, run[i]) >= 0
  {
    hide Inv, Left, Initial, Step;
    RunInv(c, run, i);
    LeftBound(c, run[i]);
    if i > 0 {
      RunBounded(c, run, i - 1);
      RunInv(c, run, i - 1);
      assert Next(c, run[i - 1], run[i - 1 + 1]);
      var t :| Step(c, run[i - 1], t) == Some(run[i]);
      StepProgress(c, run[i - 1], t, run[i]);
    }
  }

  lemma StepProgress(c: Job, s: State, t: Thread, s': State)
    requires Inv(c, s) && Step(c, s, t) == Some(s')
    ensures Left(c, s') < Left(c, s)
  {
    hide Inv, Left, MainStep, ReaderStep, WriterStep;
    match t
    case Reader => ReaderProgress(c, s, s');
    case Writer => WriterProgress(c, s, s');
    case Main => MainProgress(c, s, s');
  }

  /** No thread can move. */
  ghost predicate Stuck(c: Job, s: State)
    requires c.bufNum >= 1
  {
    forall t :: Step(c, s, t) == None
  }

  /** Main result: a run that cannot be continued has written every chunk of every file, in order;
      and no run is longer than the work of its first state. */
  lemma EveryRunCompletes(c: Job, run: seq<State>)
    requires Run(c, run)
    ensures |run| <= Left(c, run[0]) + 1
    ensures Stuck(c, run[|run| - 1]) ==> run[|run| - 1].main == MainDone && run[|run| - 1].done == c.files
  {
    hide Inv, Left, Initial, Step;
    var last := |run| - 1;
    RunBounded(c, run, last);
    RunInv(c, run, last);
    var s := run[last];
    WrittenInOrder(c, s);
    if Stuck(c, s) && s.main != MainDone { var t := NoDeadlock(c, s); }
  }
}
