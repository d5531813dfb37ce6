/** The put and get tools: a reader thread fills a ring of buffers, a writer thread empties it,
    and the main thread hands over one file after the other.  Four semaphores connect them; the
    in-use flags and the read index belong to the reader, the write index to the writer.

    One step is one semaphore operation, one test of the stop flag, or one stretch of code that
    touches only what the thread owns at that point. */
module Pipeline {
  import opened Bits

  /** The contents of one buffer. */
  type Chunk = seq<nat>

  datatype Tool = Put | Get

  /** The number of buffers, and the chunks the reader finds in each file.  The put tool stops at
      the first empty read, the get tool when the whole file has been read: it posts one empty
      chunk for an empty file. */
  datatype Job = Job(tool: Tool, bufNum: nat, files: seq<seq<Chunk>>) {
    ghost predicate Valid() {
      bufNum >= 1 && forall g :: 0 <= g < |files| && tool.Get? ==> |files[g]| >= 1
    }
  }

  datatype ReaderPc =
    | Head | AwaitStart | CheckStop
    | Check | AwaitAck | Mark | Fill | Unmark | PostJob | Advance
    | Drain(i: nat) | DrainAck(i: nat) | PostEnd
    | Flush(i: nat) | FlushAck(i: nat) | PostLast | ReaderDone

  datatype WriterPc = WHead | WAwaitJob | WCheckStop | WWrite | WAdvance | WPostAck | WriterDone

  datatype MainPc = MSetup | MPostStart | MAwaitEnd | MPostStop | MJoinReader | MJoinWriter | MainDone

  /** The shared variables and semaphores, and three counters that the code does not have: the
      chunks read and posted for the current file and the acknowledgements taken.  `done` and `cur`
      are what the writer has written. */
  datatype State = State(
    reader: ReaderPc, writer: WriterPc, main: MainPc,
    flags: seq<bool>, bufs: seq<Chunk>, rIdx: nat, wIdx: nat,
    writeJob: nat, writeOver: nat, start: nat, end: nat, stop: bool,
    file: nat, read: nat, posted: nat, acked: nat, finished: nat,
    done: seq<seq<Chunk>>, cur: seq<Chunk>)

  datatype Option<T> = Some(value: T) | None

  datatype Thread = Reader | Writer | Main

  ghost predicate Initial(c: Job, s: State) {
    && c.Valid() && s.reader == Head && s.writer == WHead && s.main == MSetup
    && s.flags == seq(c.bufNum, _ => false) && |s.bufs| == c.bufNum
    && s.writeJob == s.writeOver == s.start == s.end == 0 && !s.stop
    && s.rIdx == s.wIdx == s.file == s.read == s.posted == s.acked == s.finished == 0 && s.done == [] && s.cur == []
  }

  // ----- the three threads

  function MainStep(c: Job, s: State): Option<State> {
    match s.main
    case MSetup =>
      if s.file < |c.files| then
        Some(s.(rIdx := 0, wIdx := 0, read := 0, posted := 0, acked := 0, cur := [], main := MPostStart))
      else Some(s.(stop := true, main := MPostStop))
    case MPostStart => Some(s.(start := s.start + 1, main := MAwaitEnd))
    case MAwaitEnd =>
      if s.end > 0 then Some(s.(end := s.end - 1, file := s.file + 1, done := s.done + [s.cur], main := MSetup)) else None
    case MPostStop => Some(s.(start := s.start + 1, main := MJoinReader))
    case MJoinReader => if s.reader == ReaderDone then Some(s.(main := MJoinWriter)) else None
    case MJoinWriter => if s.writer == WriterDone then Some(s.(main := MainDone)) else None
    case MainDone => None
  }

  /** Slot number `p`, counted around the ring of `n` buffers. */
  function InRing(p: nat, n: nat): (q: nat)
    requires n >= 1
    ensures q < n
  {
    p % n
  }

  function WriterStep(c: Job, s: State): Option<State>
    requires c.bufNum >= 1
  {
    match s.writer
    case WHead => Some(s.(writer := if s.stop then WriterDone else WAwaitJob))
    case WAwaitJob => if s.writeJob > 0 then Some(s.(writeJob := s.writeJob - 1, writer := WCheckStop)) else None
    case WCheckStop => Some(s.(writer := if s.stop then WriterDone else WWrite))
    case WWrite => if s.wIdx < |s.bufs| then Some(s.(cur := s.cur + [s.bufs[s.wIdx]], writer := WAdvance)) else None
    case WAdvance => Some(s.(wIdx := InRing(s.wIdx + 1, c.bufNum), writer := WPostAck))
    case WPostAck => Some(s.(writeOver := s.writeOver + 1, writer := WHead))
    case WriterDone => None
  }

  function ReaderStep(c: Job, s: State): Option<State>
    requires c.bufNum >= 1
  {
    if s.rIdx >= |s.flags| || s.rIdx >= |s.bufs| then None else
    match s.reader
    case Head => Some(s.(reader := if s.stop then Flush(0) else AwaitStart))
    case AwaitStart => if s.start > 0 then Some(s.(start := s.start - 1, reader := CheckStop)) else None
    case CheckStop => Some(s.(reader := if s.stop then Flush(0) else Check))
    case Check => Some(s.(reader := if s.flags[s.rIdx] then AwaitAck else if c.tool.Put? then Mark else Fill))
    case AwaitAck =>
      if s.writeOver == 0 then None
      else if c.tool.Put? then Some(s.(writeOver := s.writeOver - 1, acked := s.acked + 1, reader := Mark))
      else Some(s.(writeOver := s.writeOver - 1, acked := s.acked + 1, flags := s.flags[s.rIdx := false], reader := Fill))
    case Mark => Some(s.(flags := s.flags[s.rIdx := true], reader := Fill))
    case Fill =>
      if s.file >= |c.files| then None
      else if s.read >= |c.files[s.file]| then (if c.tool.Put? then Some(s.(reader := Unmark)) else None)
      else
        var t := s.(bufs := s.bufs[s.rIdx := c.files[s.file][s.read]], read := s.read + 1, reader := PostJob);
        if c.tool.Put? then Some(t) else Some(t.(flags := s.flags[s.rIdx := true], rIdx := InRing(s.rIdx + 1, c.bufNum)))
    case Unmark => Some(s.(flags := s.flags[s.rIdx := false], reader := Drain(0)))
    case PostJob =>
      var t := s.(writeJob := s.writeJob + 1, posted := s.posted + 1);
      if c.tool.Put? then Some(t.(reader := Advance))
      else if s.file < |c.files| && s.read != |c.files[s.file]| then Some(t.(reader := Check))
      else Some(t.(reader := Drain(0)))
    case Advance => Some(s.(rIdx := InRing(s.rIdx + 1, c.bufNum), reader := Check))
    case Drain(i) =>
      if i >= |s.flags| then Some(s.(reader := PostEnd))
      else Some(s.(reader := if s.flags[i] then DrainAck(i) else Drain(i + 1)))
    case DrainAck(i) =>
      if s.writeOver == 0 || i >= |s.flags| then None
      else Some(s.(writeOver := s.writeOver - 1, acked := s.acked + 1, flags := s.flags[i := false], reader := Drain(i + 1)))
    case PostEnd => Some(s.(end := s.end + 1, finished := s.finished + 1, reader := Head))
    case Flush(i) =>
      if i >= |s.flags| || c.tool.Get? then Some(s.(reader := PostLast))
      else Some(s.(reader := if s.flags[i] then FlushAck(i) else Flush(i + 1)))
    case FlushAck(i) =>
      if s.writeOver == 0 || i >= |s.flags| then None
      else Some(s.(writeOver := s.writeOver - 1, acked := s.acked + 1, flags := s.flags[i := false], reader := Flush(i + 1)))
    case PostLast => Some(s.(writeJob := s.writeJob + 1, reader := ReaderDone))
    case ReaderDone => None
  }

  function Step(c: Job, s: State, t: Thread): Option<State>
    requires c.bufNum >= 1
  {
    match t
    case Reader => ReaderStep(c, s)
    case Writer => WriterStep(c, s)
    case Main => MainStep(c, s)
  }

  ghost predicate Next(c: Job, s: State, s': State)
    requires c.bufNum >= 1
  {
    exists t :: Step(c, s, t) == Some(s')
  }

  // ----- counting flags

  /** The flags that are set, from index `i` on. */
  function Set(flags: seq<bool>, i: nat): nat
    requires i <= |flags|
    decreases |flags| - i
  {
    if i == |flags| then 0 else Set(flags, i + 1) + if flags[i] then 1 else 0
  }

  lemma {:induction false} SetUpdate(flags: seq<bool>, i: nat, j: nat, b: bool)
    requires i <= |flags| && j < |flags|
    ensures Set(flags[j := b], i) == Set(flags, i) + if j < i || flags[j] == b then 0 else if b then 1 else -1
    decreases |flags| - i
  {
    if i < |flags| { SetUpdate(flags, i + 1, j, b); }
  }

  lemma {:induction false} SetBound(flags: seq<bool>, i: nat)
    requires i <= |flags|
    ensures Set(flags, i) <= |flags| - i
    ensures forall j :: i <= j < |flags| && !flags[j] ==> Set(flags, i) < |flags| - i
    ensures forall j :: i <= j < |flags| && flags[j] ==> Set(flags, i) > 0
    decreases |flags| - i
  {
    if i < |flags| { SetBound(flags, i + 1); }
  }

  lemma {:induction false} NoneSet(flags: seq<bool>, i: nat)
    requires i <= |flags| && forall j :: i <= j < |flags| ==> !flags[j]
    ensures Set(flags, i) == 0
    decreases |flags| - i
  {
    if i < |flags| { NoneSet(flags, i + 1); }
  }

  // ----- the ring

  lemma NextSlot(p: nat, n: nat)
    requires n >= 1
    ensures InRing(InRing(p, n) + 1, n) == InRing(p + 1, n) && InRing(0, n) == 0
  {
    assert p == p / n * n + p % n;
    if p % n + 1 < n {
      ModUnique(p + 1, n, p / n, p % n + 1);
      ModUnique(p % n + 1, n, 0, p % n + 1);
    } else {
      assert (p / n + 1) * n == p / n * n + n;
      ModUnique(p + 1, n, p / n + 1, 0);
      ModUnique(n, n, 1, 0);
    }
  }

  /** Fewer than `n` apart, two chunks have different slots. */
  lemma SlotsDiffer(i: nat, j: nat, n: nat)
    requires n >= 1 && i < j < i + n
    ensures InRing(i, n) != InRing(j, n)
  {
    if i % n == j % n {
      var q := j / n - i / n;
      assert j == j / n * n + j % n && i == i / n * n + i % n;
      MulDistributes(j / n, i / n, n);
      if q >= 1 { MulAtLeast(q, n); } else { MulAtLeast(1 - q, n); MulDistributes(1, q, n); }
    }
  }

  lemma MulDistributes(a: int, b: int, n: int)
    ensures (a - b) * n == a * n - b * n
  {
  }
}
