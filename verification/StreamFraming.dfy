/** What the block server makes of a client's byte stream, independent of how it is cut into
    pieces: commands end with a NUL byte, and a write command is followed by its payload, whose
    bytes are never looked at as commands. */
module StreamFraming {
  import opened Bytes

  const NUL: Byte := 0

  /** What a command asks for, as far as framing is concerned. */
  datatype Command = Create(text: seq<Byte>) | Open(text: seq<Byte>) | Write(text: seq<Byte>, size: nat)
    | Read(text: seq<Byte>, size: nat) | Close(text: seq<Byte>) | Unknown

  /** The command at the beginning of the buffered bytes. */
  type Parser = seq<Byte> -> Command

  datatype Event = Executed(command: Command) | Stored(byte: Byte)

  /** What has been read but not acted on, how much payload is due, what has happened. */
  datatype Framing = Framing(pending: seq<Byte>, due: nat, trace: seq<Event>, stopped: bool)

  const START := Framing([], 0, [], false)

  /** One more byte. */
  function Feed(parse: Parser, f: Framing, b: Byte): Framing {
    if f.stopped then f
    else if f.due > 0 then f.(due := f.due - 1, trace := f.trace + [Stored(b)])
    else if b != NUL then f.(pending := f.pending + [b])
    else
      var c := parse(f.pending + [b]);
      Framing([], if c.Write? then c.size else 0, f.trace + [Executed(c)], c.Unknown?)
  }

  function Run(parse: Parser, f: Framing, stream: seq<Byte>): Framing
    decreases |stream|
  {
    if stream == [] then f else Feed(parse, Run(parse, f, stream[..|stream| - 1]), stream[|stream| - 1])
  }

  lemma RunByte(parse: Parser, f: Framing, stream: seq<Byte>, b: Byte)
    ensures Run(parse, f, stream + [b]) == Feed(parse, Run(parse, f, stream), b)
  {
    assert (stream + [b])[..|stream|] == stream;
  }

  lemma {:induction false} RunConcat(parse: Parser, f: Framing, a: seq<Byte>, b: seq<Byte>)
    ensures Run(parse, f, a + b) == Run(parse, Run(parse, f, a), b)
    decreases |b|
  {
    if b == [] {
      assert a + b == a;
    } else {
      var c, x := b[..|b| - 1], b[|b| - 1];
      RunConcat(parse, f, a, c);
      assert a + b == (a + c) + [x];
      RunByte(parse, f, a + c, x);
    }
  }

  lemma {:induction false} RunText(parse: Parser, f: Framing, text: seq<Byte>)
    requires !f.stopped && f.due == 0 && NUL !in text
    ensures Run(parse, f, text) == f.(pending := f.pending + text)
    decreases |text|
  {
    if text == [] {
      assert f.pending + text == f.pending;
    } else {
      var c, x := text[..|text| - 1], text[|text| - 1];
      assert text == c + [x];
      RunText(parse, f, c);
      assert f.pending + text == f.pending + c + [x];
    }
  }

  /** A complete command. */
  lemma RunCommand(parse: Parser, f: Framing, text: seq<Byte>)
    requires !f.stopped && f.due == 0 && f.pending == [] && NUL !in text
    ensures var c := parse(text + [NUL]);
      Run(parse, f, text + [NUL]) == Framing([], if c.Write? then c.size else 0, f.trace + [Executed(c)], c.Unknown?)
  {
    RunText(parse, f, text);
    RunByte(parse, f, text, NUL);
    assert f.pending + text == text;
  }

  function AllStored(data: seq<Byte>): (e: seq<Event>)
    ensures |e| == |data| && forall i :: 0 <= i < |data| ==> e[i] == Stored(data[i])
  {
    seq(|data|, i requires 0 <= i < |data| => Stored(data[i]))
  }

  /** Payload bytes are stored, NULs included. */
  lemma {:induction false} RunPayload(parse: Parser, f: Framing, data: seq<Byte>)
    requires !f.stopped && |data| <= f.due
    ensures Run(parse, f, data) == f.(due := f.due - |data|, trace := f.trace + AllStored(data))
    decreases |data|
  {
    if data == [] {
      assert f.trace + AllStored(data) == f.trace;
    } else {
      var c, x := data[..|data| - 1], data[|data| - 1];
      assert data == c + [x];
      RunPayload(parse, f, c);
      assert f.trace + AllStored(data) == f.trace + AllStored(c) + [Stored(x)];
    }
  }

  // ----- the bytes asked for

  /** The sizes of the read commands executed, added up. */
  function Requested(trace: seq<Event>): nat
    decreases |trace|
  {
    if trace == [] then 0
    else
      var n := |trace| - 1;
      Requested(trace[..n]) + match trace[n] { case Executed(Read(_, size)) => size case _ => 0 }
  }

  lemma RequestedStep(trace: seq<Event>, e: Event)
    ensures Requested(trace + [e]) == Requested(trace) + match e { case Executed(Read(_, size)) => size case _ => 0 }
  {
    assert (trace + [e])[..|trace|] == trace;
  }

  lemma {:induction false} RequestedStored(trace: seq<Event>, data: seq<Byte>)
    ensures Requested(trace + AllStored(data)) == Requested(trace)
    decreases |data|
  {
    if data == [] {
      assert trace + AllStored(data) == trace;
    } else {
      var c, x := data[..|data| - 1], data[|data| - 1];
      RequestedStored(trace, c);
      RequestedStep(trace + AllStored(c), Stored(x));
      assert trace + AllStored(data) == trace + AllStored(c) + [Stored(x)];
    }
  }

  // ----- well-formed streams

  /** What follows a command in the buffer does not change how it is read. */
  ghost predicate Stable(parse: Parser, command: seq<Byte>) {
    forall rest :: parse(command + rest) == parse(command)
  }

  /** Every command that the stream completes, read from `f` on, is stable. */
  ghost predicate WellFormed(parse: Parser, f: Framing, stream: seq<Byte>) {
    forall i :: 0 <= i < |stream| && EndsCommand(parse, f, stream, i) ==>
      Stable(parse, Run(parse, f, stream[..i]).pending + [NUL])
  }

  ghost predicate EndsCommand(parse: Parser, f: Framing, stream: seq<Byte>, i: int)
    requires 0 <= i < |stream|
  {
    var g := Run(parse, f, stream[..i]);
    !g.stopped && g.due == 0 && stream[i] == NUL
  }

  lemma WellFormedPrefix(parse: Parser, f: Framing, a: seq<Byte>, b: seq<Byte>)
    requires WellFormed(parse, f, a + b)
    ensures WellFormed(parse, f, a)
  {
    forall i | 0 <= i < |a| && EndsCommand(parse, f, a, i) ensures Stable(parse, Run(parse, f, a[..i]).pending + [NUL]) {
      assert (a + b)[..i] == a[..i];
      assert EndsCommand(parse, f, a + b, i);
    }
  }

  /** No command, its NUL included, is longer than `size`: there is always less than that pending. */
  ghost predicate ShortCommands(parse: Parser, stream: seq<Byte>, size: nat) {
    forall i :: 0 <= i <= |stream| ==> |Run(parse, START, stream[..i]).pending| < size
  }

  lemma WellFormedRest(parse: Parser, f: Framing, a: seq<Byte>, b: seq<Byte>)
    requires WellFormed(parse, f, a + b)
    ensures WellFormed(parse, Run(parse, f, a), b)
  {
    var g := Run(parse, f, a);
    forall i | 0 <= i < |b| && EndsCommand(parse, g, b, i) ensures Stable(parse, Run(parse, g, b[..i]).pending + [NUL]) {
      RunConcat(parse, f, a, b[..i]);
      assert (a + b)[..|a| + i] == a + b[..i];
      assert EndsCommand(parse, f, a + b, |a| + i);
    }
  }

  /** What is handled once `held` has been received after `f`: nothing that is still pending. */
  ghost predicate Leads(parse: Parser, f: Framing, held: seq<Byte>, goal: Framing) {
    WellFormed(parse, f, held) && Run(parse, f, held) == goal
  }

  /** Acting on a complete command at the front. */
  lemma CommandLeads(parse: Parser, f: Framing, held: seq<Byte>, goal: Framing, n: nat)
    requires Leads(parse, f, held, goal) && !f.stopped && f.due == 0 && f.pending == []
    requires 1 <= n <= |held| && held[n - 1] == NUL && NUL !in held[..n - 1]
    ensures parse(held) == parse(held[..n])
    ensures var c := parse(held);
      Leads(parse, Framing([], if c.Write? then c.size else 0, f.trace + [Executed(c)], c.Unknown?), held[n..], goal)
  {
    var text := held[..n - 1];
    assert held[..n] == text + [NUL] && held == held[..n] + held[n..];
    RunText(parse, f, text);
    assert f.pending + text == text;
    assert EndsCommand(parse, f, held, n - 1);
    RunCommand(parse, f, text);
    RunConcat(parse, f, held[..n], held[n..]);
    WellFormedRest(parse, f, held[..n], held[n..]);
  }

  /** Storing payload from the front. */
  lemma PayloadLeads(parse: Parser, f: Framing, held: seq<Byte>, goal: Framing, n: nat)
    requires Leads(parse, f, held, goal) && !f.stopped && n <= f.due && n <= |held|
    ensures Leads(parse, f.(due := f.due - n, trace := f.trace + AllStored(held[..n])), held[n..], goal)
  {
    assert held == held[..n] + held[n..];
    RunPayload(parse, f, held[..n]);
    RunConcat(parse, f, held[..n], held[n..]);
    WellFormedRest(parse, f, held[..n], held[n..]);
  }

  lemma {:induction false} RunStopped(parse: Parser, f: Framing, stream: seq<Byte>)
    requires f.stopped
    ensures Run(parse, f, stream) == f
    decreases |stream|
  {
    if stream != [] { RunStopped(parse, f, stream[..|stream| - 1]); }
  }

  /** Pending bytes never contain a NUL, and there are none while payload is due. */
  lemma {:induction false} PendingClean(parse: Parser, stream: seq<Byte>)
    ensures NUL !in Run(parse, START, stream).pending
    ensures Run(parse, START, stream).due > 0 ==> Run(parse, START, stream).pending == []
    decreases |stream|
  {
    if stream != [] { PendingClean(parse, stream[..|stream| - 1]); }
  }

  /** Reading the pending bytes again leads back to where they are pending. */
  lemma PendingRun(parse: Parser, g: Framing)
    requires !g.stopped && (g.due > 0 ==> g.pending == []) && NUL !in g.pending
    ensures Run(parse, g.(pending := []), g.pending) == g
  {
    if g.pending == [] {
      assert g.(pending := []) == g;
    } else {
      RunText(parse, g.(pending := []), g.pending);
      assert [] + g.pending == g.pending;
    }
  }

  /** Taking up again with the pending bytes and a new piece. */
  lemma Resume(parse: Parser, received: seq<Byte>, piece: seq<Byte>)
    requires WellFormed(parse, START, received + piece) && !Run(parse, START, received).stopped
    ensures var g := Run(parse, START, received);
      Leads(parse, g.(pending := []), g.pending + piece, Run(parse, START, received + piece))
  {
    hide Run, WellFormed;
    var g := Run(parse, START, received);
    PendingClean(parse, received);
    PendingRun(parse, g);
    RunConcat(parse, START, received, piece);
    RunConcat(parse, g.(pending := []), g.pending, piece);
    WellFormedRest(parse, START, received, piece);
    ResumeWellFormed(parse, g, piece);
  }

  lemma ResumeWellFormed(parse: Parser, g: Framing, piece: seq<Byte>)
    requires WellFormed(parse, g, piece) && NUL !in g.pending && Run(parse, g.(pending := []), g.pending) == g
    ensures WellFormed(parse, g.(pending := []), g.pending + piece)
  {
    hide Run;
    var f, held, k := g.(pending := []), g.pending + piece, |g.pending|;
    forall i | 0 <= i < |held| && EndsCommand(parse, f, held, i) ensures Stable(parse, Run(parse, f, held[..i]).pending + [NUL]) {
      if i >= k {
        var j := i - k;
        assert held[..i] == g.pending + piece[..j] && held[i] == piece[j];
        RunConcat(parse, f, g.pending, piece[..j]);
        assert EndsCommand(parse, g, piece, j);
      }
    }
  }

  lemma FirstNul(held: seq<Byte>) returns (n: nat)
    requires NUL in held
    ensures 1 <= n <= |held| && held[n - 1] == NUL && NUL !in held[..n - 1]
  {
    n := 1;
    while held[n - 1] != NUL
      invariant 1 <= n <= |held| && NUL !in held[..n - 1]
      decreases |held| - n
    {
      assert held[..n] == held[..n - 1] + [held[n - 1]];
      n := n + 1;
    }
  }

  /** Nothing more can be done: no complete command. */
  lemma NothingComplete(parse: Parser, f: Framing, held: seq<Byte>, goal: Framing)
    requires Leads(parse, f, held, goal) && !f.stopped && f.pending == []
    requires held == [] || (f.due == 0 && NUL !in held)
    ensures goal == f.(pending := held)
  {
    if held != [] {
      RunText(parse, f, held);
      assert f.pending + held == held;
    }
  }

  lemma StoppedLeads(parse: Parser, f: Framing, held: seq<Byte>, goal: Framing)
    requires Leads(parse, f, held, goal) && f.stopped
    ensures goal == f
  {
    RunStopped(parse, f, held);
  }
}
