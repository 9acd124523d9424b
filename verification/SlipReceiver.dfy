/**
  The SLIP receiver (main/slip_handle.c:336-402). It reads the stream in chunks; a chunk may be
  claimed by a filter or be too long, and then it empties the buffer.
 */
module SlipReceiver {
  import opened Bits
  import opened Slip

  /** The receiver between two bytes: whether the last one was ESC, and what it has collected. */
  datatype Receiver = Receiver(escape: bool, collected: seq<byte>)

  const IDLE := Receiver(false, [])

  /** The receiver after one byte. */
  function Taken(r: Receiver, b: byte): Receiver {
    if r.escape then
      if b == SLIP_ESC_END then Receiver(false, r.collected + [SLIP_END])
      else if b == SLIP_ESC_ESC then Receiver(false, r.collected + [SLIP_ESC])
      else IDLE
    else if b == SLIP_END then IDLE
    else if b == SLIP_ESC then Receiver(true, r.collected)
    else Receiver(false, r.collected + [b])
  }

  /** The frames that one byte delivers: END delivers what was collected, unless that is nothing. */
  function Delivered(r: Receiver, b: byte): seq<seq<byte>> {
    if !r.escape && b == SLIP_END && r.collected != [] then [r.collected] else []
  }

  /** The receiver after the bytes of a chunk. */
  function TakenAll(r: Receiver, data: seq<byte>): Receiver
    decreases |data|
  {
    if data == [] then r else TakenAll(Taken(r, data[0]), data[1..])
  }

  function DeliveredAll(r: Receiver, data: seq<byte>): seq<seq<byte>>
    decreases |data|
  {
    if data == [] then [] else Delivered(r, data[0]) + DeliveredAll(Taken(r, data[0]), data[1..])
  }

  /** One read from the UART, and whether `rx_filter` claims it. */
  datatype Chunk = Chunk(data: seq<byte>, claimed: bool)

  /** A chunk that is neither claimed nor too long for what has been collected. */
  predicate Accepts(r: Receiver, c: Chunk) {
    !c.claimed && |r.collected| + |c.data| < SLIP_MAX_RAW_PACKET
  }

  function AfterChunk(r: Receiver, c: Chunk): Receiver {
    if Accepts(r, c) then TakenAll(r, c.data) else r.(collected := [])
  }

  function FromChunk(r: Receiver, c: Chunk): seq<seq<byte>> {
    if Accepts(r, c) then DeliveredAll(r, c.data) else []
  }

  function AfterChunks(r: Receiver, chunks: seq<Chunk>): Receiver
    decreases |chunks|
  {
    if chunks == [] then r else AfterChunks(AfterChunk(r, chunks[0]), chunks[1..])
  }

  function FromChunks(r: Receiver, chunks: seq<Chunk>): seq<seq<byte>>
    decreases |chunks|
  {
    if chunks == [] then [] else FromChunk(r, chunks[0]) + FromChunks(AfterChunk(r, chunks[0]), chunks[1..])
  }

  /** The receive buffer and its state, as the task keeps them. */
  class UartReceiver {
    const rxBuffer: array<byte>
    var recvBufferLen: nat
    var escape: bool

    ghost predicate Valid()
      reads this, rxBuffer
    {
      rxBuffer.Length == SLIP_MAX_RAW_PACKET && recvBufferLen < rxBuffer.Length
    }

    ghost function Value(): Receiver
      reads this, rxBuffer
      requires Valid()
    {
      Receiver(escape, rxBuffer[..recvBufferLen])
    }

    constructor ()
      ensures Valid() && fresh(rxBuffer) && Value() == IDLE
    {
      rxBuffer := new byte[SLIP_MAX_RAW_PACKET](_ => 0);
      recvBufferLen, escape := 0, false;
    }

    /** A payload byte. */
    method Put(b: byte)
      requires Valid() && recvBufferLen + 1 < rxBuffer.Length
      modifies this`recvBufferLen, rxBuffer
      ensures Valid() && rxBuffer[..recvBufferLen] == old(rxBuffer[..recvBufferLen]) + [b]
      ensures recvBufferLen == old(recvBufferLen) + 1
    {
      rxBuffer[recvBufferLen] := b;
      recvBufferLen := recvBufferLen + 1;
    }

    /** The two nested switches. */
    method Take(b: byte) returns (frames: seq<seq<byte>>)
      requires Valid() && recvBufferLen + 1 < rxBuffer.Length
      modifies this, rxBuffer
      ensures Valid() && recvBufferLen <= old(recvBufferLen) + 1
      ensures Value() == Taken(old(Value()), b) && frames == Delivered(old(Value()), b)
    {
      frames := [];
      if !escape {
        if b == SLIP_END {
          if recvBufferLen > 0 {
            frames := [rxBuffer[..recvBufferLen]];
          }
          recvBufferLen := 0;
        } else if b == SLIP_ESC {
          escape := true;
        } else {
          Put(b);
        }
      } else {
        if b == SLIP_ESC_END {
          Put(SLIP_END);
        } else if b == SLIP_ESC_ESC {
          Put(SLIP_ESC);
        } else {
          recvBufferLen := 0;
        }
        escape := false;
      }
    }

    /** One read: the length guard keeps every byte inside the buffer. */
    method Receive(chunk: Chunk) returns (frames: seq<seq<byte>>)
      requires Valid()
      modifies this, rxBuffer
      ensures Valid()
      ensures Value() == AfterChunk(old(Value()), chunk) && frames == FromChunk(old(Value()), chunk)
    {
      frames := [];
      if chunk.claimed {
        recvBufferLen := 0;
      } else if recvBufferLen + |chunk.data| < SLIP_MAX_RAW_PACKET {
        var i := 0;
        ghost var before := Value();
        while i < |chunk.data|
          invariant 0 <= i <= |chunk.data| && Valid()
          invariant recvBufferLen + |chunk.data| - i < SLIP_MAX_RAW_PACKET
          invariant TakenAll(before, chunk.data) == TakenAll(Value(), chunk.data[i..])
          invariant DeliveredAll(before, chunk.data) == frames + DeliveredAll(Value(), chunk.data[i..])
        {
          assert chunk.data[i..][1..] == chunk.data[i + 1..];
          var more := Take(chunk.data[i]);
          frames := frames + more;
          i := i + 1;
        }
      } else {
        recvBufferLen := 0;
      }
    }
  }
}
