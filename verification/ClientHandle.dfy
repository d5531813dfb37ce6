/** `processClientInMsg` and `processClientInCmd`: the block server's side of one connection. */
module ClientHandle {
  import opened Bytes
  import opened StreamFraming
  import opened MessageBuffer

  datatype InState = WAIT | WRITING

  /** The totals over all connections. */
  class Manager {
    var totalRecv: nat
    var totalDump: nat

    constructor ()
      ensures totalRecv == totalDump == 0
    {
      totalRecv, totalDump := 0, 0;
    }
  }

  class Client {
    const parse: Parser
    const msg: Buffer
    const manager: Manager
    var state: InState
    var reqSize: nat
    var handledSize: nat
    /** Bytes asked for by all read commands. */
    var readRequestTotal: nat
    /** Commands executed and bytes written to the block files, in order. */
    var trace: seq<Event>
    /** The server has met a command it does not know; the process has ended. */
    var exited: bool
    /** Everything the client has sent so far. */
    ghost var received: seq<Byte>

    ghost predicate Valid()
      reads this, msg
    {
      msg.Valid() && msg.rOffset == 0 && handledSize <= reqSize && readRequestTotal == Requested(trace)
    }

    constructor (parse: Parser, bufSize: nat, manager: Manager)
      ensures Valid() && this.parse == parse && this.manager == manager && fresh(msg) && fresh(msg.buf) && fresh(msg.swpBuf)
      ensures trace == [] && !exited && received == [] && msg.buf.Length == bufSize && Follows()
    {
      this.parse, this.manager := parse, manager;
      msg := new Buffer(bufSize);
      state, reqSize, handledSize, readRequestTotal, trace, exited := WAIT, 0, 0, 0, [], false;
      received := [];
    }

    /** Payload still due. */
    ghost function Due(): nat
      reads this
      requires handledSize <= reqSize
    {
      if state == WRITING then reqSize - handledSize else 0
    }

    /** What the connection stands for, with the buffered bytes still to be handled. */
    ghost function Acted(): Framing
      reads this
      requires handledSize <= reqSize
    {
      Framing([], Due(), trace, exited)
    }

    /** The state is what the stream received so far, read byte by byte, amounts to: the same commands
        and stored bytes, the same payload due, and in the buffer exactly the incomplete command. */
    ghost predicate Follows()
      reads this, msg, msg.buf
      requires Valid()
    {
      var f := StreamFraming.Run(parse, START, received);
      if exited then f.stopped && f.trace == trace else f == Framing(msg.Held(), Due(), trace, false)
    }

    /** The difference of the totals, less what this connection has buffered. */
    ghost function Balance(): int
      reads manager, msg
    {
      manager.totalRecv as int - manager.totalDump as int - msg.wOffset as int
    }

    /** `hasInCmd`. */
    method HasInCmd(cmdFlag: Byte) returns (has: bool)
      requires Valid()
      ensures has <==> cmdFlag in msg.Held()
    {
      var idx: nat := 0;
      while idx < msg.wOffset
        invariant idx <= msg.wOffset && cmdFlag !in msg.Held()[..idx]
      {
        if msg.buf[idx] == cmdFlag { assert msg.Held()[idx] == cmdFlag; return true; }
        assert msg.Held()[..idx + 1] == msg.Held()[..idx] + [msg.Held()[idx]];
        idx := idx + 1;
      }
      assert msg.Held()[..idx] == msg.Held();
      has := false;
    }

    /** `writeDataToDisk`: as much of the payload as is due and buffered.  The disk may take it in
        several goes. */
    method WriteDataToDisk() returns (finished: bool)
      requires Valid() && state == WRITING && manager.totalDump <= manager.totalRecv
      modifies this`handledSize, this`trace, msg`wOffset, msg.buf, msg.swpBuf, manager`totalDump
      ensures Valid() && Balance() == old(Balance()) && reqSize == old(reqSize)
      ensures var n := if old(Due()) > |old(msg.Held())| then |old(msg.Held())| else old(Due());
        && msg.Held() == old(msg.Held())[n..] && trace == old(trace) + AllStored(old(msg.Held())[..n])
        && Due() == old(Due()) - n && finished == (Due() == 0)
    {
      hide Requested;
      ghost var held, t0 := msg.Held(), trace;
      var remainHandledSize := reqSize - handledSize;
      var canWriteSize := if remainHandledSize > msg.wOffset then msg.wOffset else remainHandledSize;
      var totalWriteSize: nat := 0;
      assert AllStored(held[..0]) == [];
      while totalWriteSize != canWriteSize
        invariant totalWriteSize <= canWriteSize && trace == t0 + AllStored(held[..totalWriteSize])
        decreases canWriteSize - totalWriteSize
        modifies this`trace
      {
        var writeSize: nat :| 0 < writeSize <= canWriteSize - totalWriteSize;
        var data := msg.buf[totalWriteSize..totalWriteSize + writeSize];
        assert held[..totalWriteSize + writeSize] == held[..totalWriteSize] + data;
        trace := trace + AllStored(data);
        totalWriteSize := totalWriteSize + writeSize;
      }
      RequestedStored(t0, held[..totalWriteSize]);
      handledSize := handledSize + totalWriteSize;
      var dumped := msg.DumpMsgWithSize(totalWriteSize);
      manager.totalDump := manager.totalDump + dumped;
      finished := reqSize == handledSize;
    }

    /** `getClientInCmd`: read the command at the front and act on it; an unknown one ends the server. */
    method GetClientInCmd()
      requires Valid() && state == WAIT && !exited
      modifies this`state, this`reqSize, this`handledSize, this`readRequestTotal, this`trace, this`exited
      ensures var c := parse(old(msg.Held()));
        && (c.Write? || c.Read? ==> reqSize == c.size && handledSize == 0)
        && readRequestTotal == old(readRequestTotal) + if c.Read? then c.size else 0
      ensures Valid() && var c := parse(old(msg.Held()));
        && Acted() == Framing([], if c.Write? then c.size else 0, old(trace) + [Executed(c)], c.Unknown?)
        && (state == WRITING <==> c.Write?)
    {
      hide Requested;
      var command := parse(msg.buf[..msg.wOffset]);
      match command {
        case Write(text, size) => reqSize, handledSize, state := size, 0, WRITING;
        case Read(text, size) =>
          reqSize, handledSize := size, 0;
          readRequestTotal := readRequestTotal + size;
        case Unknown => exited := true;
        case _ =>
      }
      RequestedStep(trace, Executed(command));
      trace := trace + [Executed(command)];
    }

    /** `processClientInCmd`: handle everything that is complete.  `goal` is where the stream leads. */
    method ProcessClientInCmd(ghost goal: Framing)
      requires Valid() && !exited && manager.totalDump <= manager.totalRecv && manager.totalRecv - manager.totalDump >= msg.wOffset
      requires Leads(parse, Acted(), msg.Held(), goal)
      modifies this`state, this`reqSize, this`handledSize, this`readRequestTotal, this`trace, this`exited, msg`wOffset, msg`rOffset, msg.buf, msg.swpBuf, manager`totalDump
      ensures Valid() && Balance() == old(Balance())
      ensures goal.stopped == exited
      ensures !exited ==> goal == Framing(msg.Held(), Due(), trace, false)
      ensures exited ==> goal.trace == trace
      ensures readRequestTotal == Requested(trace)
      decreases msg.wOffset, if state == WRITING then 1 else 0
    {
      hide StreamFraming.Run, Leads, AllStored, Requested;
      ghost var held, f := msg.Held(), Acted();
      if msg.wOffset == 0 {
        NothingComplete(parse, f, held, goal);
        return;
      }
      if state == WAIT {
        var has := HasInCmd(NUL);
        if !has {
          NothingComplete(parse, f, held, goal);
          return;
        }
        ghost var n := FirstNul(held);
        CommandLeads(parse, f, held, goal, n);
        GetClientInCmd();
        if exited {
          StoppedLeads(parse, Acted(), held[n..], goal);
          return;
        }
        var dumped := msg.DumpMsgWithCh(NUL);
        manager.totalDump := manager.totalDump + dumped;
        CommandLeads(parse, f, held, goal, dumped);
        ProcessClientInCmd(goal);
      } else {
        var finished := WriteDataToDisk();
        ghost var n := |held| - msg.wOffset;
        PayloadLeads(parse, f, held, goal, n);
        if finished {
          state := WAIT;
          ProcessClientInCmd(goal);
        } else {
          NothingComplete(parse, Acted(), msg.Held(), goal);
        }
      }
    }

    /** `processClientInMsg` with a piece from `recv`, and then `processClientInCmd`. */
    method Incoming(piece: seq<Byte>)
      requires Valid() && Follows() && !exited && |piece| <= msg.buf.Length - msg.wOffset
      requires manager.totalRecv - manager.totalDump >= msg.wOffset
      requires WellFormed(parse, START, received + piece)
      modifies this, msg`wOffset, msg`rOffset, msg.buf, msg.swpBuf, manager
      ensures Valid() && Follows() && received == old(received) + piece && Balance() == old(Balance())
      ensures manager.totalRecv == old(manager.totalRecv) + |piece|
      ensures readRequestTotal == Requested(trace)
    {
      hide StreamFraming.Run, WellFormed, Leads, Requested;
      Resume(parse, received, piece);
      msg.Receive(piece);
      manager.totalRecv := manager.totalRecv + |piece|;
      ProcessClientInCmd(StreamFraming.Run(parse, START, received + piece));
      received := received + piece;
    }
  }

  /** A whole stream, cut by the network as it likes: each `recv` brings at least one byte and at most
      what fits into the buffer.  As long as the buffer is as long as every command there is always room,
      and commands, stored bytes and what is left depend only on the stream. */
  method ServeStream(client: Client, stream: seq<Byte>)
    requires client.Valid() && client.Follows() && client.received == [] && !client.exited
    requires client.manager.totalRecv - client.manager.totalDump >= client.msg.wOffset
    requires WellFormed(client.parse, START, stream) && ShortCommands(client.parse, stream, client.msg.buf.Length)
    modifies client, client.msg`wOffset, client.msg`rOffset, client.msg.buf, client.msg.swpBuf, client.manager
    ensures client.Valid() && client.Balance() == old(client.Balance())
    ensures client.manager.totalRecv == old(client.manager.totalRecv) + |client.received|
    ensures var f := StreamFraming.Run(client.parse, START, stream);
      && client.exited == f.stopped && client.trace == f.trace
      && (!client.exited ==> client.received == stream && client.msg.Held() == f.pending && client.Due() == f.due)
    ensures client.readRequestTotal == Requested(client.trace)
  {
    hide StreamFraming.Run, WellFormed, Leads, Requested;
    var done: nat := 0;
    assert stream[..0] == [];
    while done < |stream| && !client.exited
      invariant done <= |stream| && client.Valid() && client.Follows() && client.received == stream[..done]
      invariant client.manager.totalRecv == old(client.manager.totalRecv) + |client.received|
      invariant client.Balance() == old(client.Balance()) && client.manager.totalRecv - client.manager.totalDump >= client.msg.wOffset
      decreases |stream| - done
    {
      RoomLeft(client, stream, done);
      var room := client.msg.buf.Length - client.msg.wOffset;
      var n: nat :| 0 < n <= room && n <= |stream| - done;
      assert stream[..done] + stream[done..done + n] == stream[..done + n];
      PrefixWellFormed(client.parse, stream, done + n);
      client.Incoming(stream[done..done + n]);
      done := done + n;
    }
    if client.exited {
      StoppedRest(client.parse, stream, done);
    } else {
      assert stream[..done] == stream;
    }
  }

  /** Between two pieces the buffer holds an unfinished command, which is shorter than the buffer. */
  lemma RoomLeft(client: Client, stream: seq<Byte>, done: nat)
    requires client.Valid() && client.Follows() && !client.exited && done <= |stream| && client.received == stream[..done]
    requires ShortCommands(client.parse, stream, client.msg.buf.Length)
    ensures client.msg.wOffset < client.msg.buf.Length
  {
    hide StreamFraming.Run;
    assert |StreamFraming.Run(client.parse, START, stream[..done]).pending| < client.msg.buf.Length;
  }

  lemma PrefixWellFormed(parse: Parser, stream: seq<Byte>, n: nat)
    requires WellFormed(parse, START, stream) && n <= |stream|
    ensures WellFormed(parse, START, stream[..n])
  {
    assert stream[..n] + stream[n..] == stream;
    WellFormedPrefix(parse, START, stream[..n], stream[n..]);
  }

  lemma StoppedRest(parse: Parser, stream: seq<Byte>, n: nat)
    requires n <= |stream| && StreamFraming.Run(parse, START, stream[..n]).stopped
    ensures StreamFraming.Run(parse, START, stream) == StreamFraming.Run(parse, START, stream[..n])
  {
    hide StreamFraming.Run;
    assert stream[..n] + stream[n..] == stream;
    RunConcat(parse, START, stream[..n], stream[n..]);
    RunStopped(parse, StreamFraming.Run(parse, START, stream[..n]), stream[n..]);
  }
}
