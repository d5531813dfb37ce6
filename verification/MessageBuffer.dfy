/** The read buffer of a connection.  What has been handled is taken off the front; the rest moves
    down by way of the second array. */
module MessageBuffer {
  import opened Bytes

  class Buffer {
    const buf: array<Byte>
    const swpBuf: array<Byte>
    var rOffset: nat
    var wOffset: nat

    ghost predicate Valid()
      reads this
    {
      buf != swpBuf && buf.Length == swpBuf.Length && wOffset <= buf.Length
    }

    /** The bytes that have been received and not handled. */
    ghost function Held(): (s: seq<Byte>)
      reads this, buf
      requires Valid()
      ensures |s| == wOffset
    {
      buf[..wOffset]
    }

    constructor (bufSize: nat)
      ensures Valid() && fresh(buf) && fresh(swpBuf) && buf.Length == bufSize && rOffset == 0 && Held() == []
    {
      buf, swpBuf := new Byte[bufSize], new Byte[bufSize];
      rOffset, wOffset := 0, 0;
    }

    /** Move the bytes from `from` on to the front. */
    method Shift(from: nat)
      requires Valid() && from <= wOffset
      modifies buf, swpBuf
      ensures buf[..wOffset - from] == old(buf[from..wOffset])
    {
      var len := wOffset - from;
      var i: nat := 0;
      while i < len
        invariant i <= len && (forall j :: 0 <= j < i ==> swpBuf[j] == buf[from + j]) && buf[..] == old(buf[..])
      {
        swpBuf[i] := buf[from + i];
        i := i + 1;
      }
      i := 0;
      while i < len
        invariant i <= len && forall j :: 0 <= j < i ==> buf[j] == swpBuf[j]
        invariant forall j :: 0 <= j < len ==> swpBuf[j] == old(buf[from + j])
      {
        buf[i] := swpBuf[i];
        i := i + 1;
      }
    }

    /** `dumpMsgWithCh`: drop everything up to the first `ch`; without one, drop nothing. */
    method DumpMsgWithCh(ch: Byte) returns (dumped: nat)
      requires Valid()
      modifies this`wOffset, this`rOffset, buf, swpBuf
      ensures Valid() && dumped <= |old(Held())| && Held() == old(Held())[dumped..]
      ensures if ch in old(Held()) then dumped >= 1 && old(Held())[dumped - 1] == ch && ch !in old(Held())[..dumped - 1] else dumped == 0
      ensures rOffset == if dumped == old(wOffset) && dumped > 0 then 0 else if old(rOffset) >= dumped then old(rOffset) - dumped else old(rOffset)
    {
      ghost var held := Held();
      dumped := 0;
      var idx: nat := 0;
      while idx < wOffset
        invariant idx <= wOffset && dumped == 0 && ch !in held[..idx]
        invariant Valid() && rOffset == old(rOffset) && wOffset == old(wOffset) && Held() == held
      {
        if buf[idx] == ch {
          dumped := idx + 1;
          if idx + 1 == wOffset {
            wOffset, rOffset := 0, 0;
            return;
          }
          break;
        }
        assert held[..idx + 1] == held[..idx] + [held[idx]];
        idx := idx + 1;
      }
      var tempBufSize := wOffset - dumped;
      if tempBufSize != 0 {
        Shift(dumped);
        wOffset := tempBufSize;
        if rOffset >= dumped { rOffset := rOffset - dumped; }
      }
    }

    /** `dumpMsgWithSize`: drop the first `dumpSize` bytes. */
    method DumpMsgWithSize(dumpSize: nat) returns (dumped: nat)
      requires Valid() && dumpSize <= wOffset
      modifies this`wOffset, buf, swpBuf
      ensures Valid() && dumped == dumpSize && Held() == old(Held())[dumpSize..]
    {
      var tempBufSize := wOffset - dumpSize;
      dumped := dumpSize;
      if tempBufSize == 0 {
        wOffset := 0;
        return;
      }
      Shift(dumpSize);
      wOffset := tempBufSize;
    }

    /** `recv` of a piece that fits. */
    method Receive(piece: seq<Byte>)
      requires Valid() && |piece| <= buf.Length - wOffset
      modifies this`wOffset, buf
      ensures Valid() && Held() == old(Held()) + piece
    {
      ghost var held := Held();
      var i: nat := 0;
      while i < |piece|
        invariant i <= |piece| && wOffset == old(wOffset) && buf[..wOffset] == held
        invariant forall j :: 0 <= j < i ==> buf[wOffset + j] == piece[j]
      {
        buf[wOffset + i] := piece[i];
        i := i + 1;
      }
      wOffset := wOffset + |piece|;
    }
  }
}
