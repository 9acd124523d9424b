/**
  SLIP framing (main/slip_handle.c): the encoder with its bounded buffer, and the receiver that
  takes the byte stream in chunks. RFC 1055, section PROTOCOL, describes the frames.
 */
module Slip {
  import opened Bits

  const SLIP_END: byte := 0xC0
  const SLIP_ESC: byte := 0xDB
  const SLIP_ESC_END: byte := 0xDC
  const SLIP_ESC_ESC: byte := 0xDD

  const SLIP_MAX_RAW_PACKET: nat := 1328
  const WIFI_SLIP_MAX_IP_PACKET: nat := 664

  // ---------------------------------------------------------------------------- encoding

  function Escaped(c: byte): (s: seq<byte>)
    ensures 1 <= |s| <= 2
  {
    if c == SLIP_END then [SLIP_ESC, SLIP_ESC_END]
    else if c == SLIP_ESC then [SLIP_ESC, SLIP_ESC_ESC]
    else [c]
  }

  /** A payload with its special bytes escaped. */
  function Stuffed(payload: seq<byte>): seq<byte> {
    if payload == [] then [] else Escaped(payload[0]) + Stuffed(payload[1..])
  }

  function Framed(payload: seq<byte>): seq<byte> {
    [SLIP_END] + Stuffed(payload) + [SLIP_END]
  }

  /** How many bytes of a payload the encoder takes when its buffer holds `used` bytes already. */
  function Kept(payload: seq<byte>, used: nat): (n: nat)
    ensures n <= |payload|
  {
    if payload == [] || used >= SLIP_MAX_RAW_PACKET - 3 then 0
    else 1 + Kept(payload[1..], used + |Escaped(payload[0])|)
  }

  /** The frame that `slip_modem_transmit` sends. */
  function Transmitted(payload: seq<byte>): seq<byte> {
    Framed(payload[..Kept(payload, 1)])
  }

  function Flatten(chain: seq<seq<byte>>): seq<byte> {
    if chain == [] then [] else Flatten(chain[..|chain| - 1]) + chain[|chain| - 1]
  }

  lemma {:induction false} StuffedAppend(x: seq<byte>, y: seq<byte>)
    ensures Stuffed(x + y) == Stuffed(x) + Stuffed(y)
  {
    if x == [] {
      assert x + y == y;
    } else {
      assert (x + y)[1..] == x[1..] + y;
      StuffedAppend(x[1..], y);
    }
  }

  /** One more byte is taken exactly while the buffer has room. */
  lemma {:induction false} KeptAppend(x: seq<byte>, c: byte, used: nat)
    requires Kept(x, used) == |x|
    ensures Kept(x + [c], used) == if used + |Stuffed(x)| < SLIP_MAX_RAW_PACKET - 3 then |x| + 1 else |x|
  {
    if x == [] {
      assert x + [c] == [c];
    } else {
      assert (x + [c])[1..] == x[1..] + [c];
      KeptAppend(x[1..], c, used + |Escaped(x[0])|);
    }
  }

  /** A full buffer takes nothing more. */
  lemma {:induction false} KeptIsFinal(x: seq<byte>, y: seq<byte>, used: nat)
    requires used + |Stuffed(x[..Kept(x, used)])| >= SLIP_MAX_RAW_PACKET - 3
    ensures Kept(x + y, used) == Kept(x, used) && (x + y)[..Kept(x + y, used)] == x[..Kept(x, used)]
  {
    if x == [] {
      assert x + y == y;
    } else {
      assert (x + y)[1..] == x[1..] + y;
      if used < SLIP_MAX_RAW_PACKET - 3 {
        assert x[..Kept(x, used)][1..] == x[1..][..Kept(x[1..], used + |Escaped(x[0])|)];
        KeptIsFinal(x[1..], y, used + |Escaped(x[0])|);
      }
    }
  }

  /** A frame always fits into the buffer with its delimiters. */
  lemma {:induction false} KeptFits(payload: seq<byte>, used: nat)
    requires used <= SLIP_MAX_RAW_PACKET - 2
    ensures used + |Stuffed(payload[..Kept(payload, used)])| <= SLIP_MAX_RAW_PACKET - 2
    ensures Kept(payload, used) < |payload| ==>
              used + |Stuffed(payload[..Kept(payload, used)])| >= SLIP_MAX_RAW_PACKET - 3
  {
    if payload != [] && used < SLIP_MAX_RAW_PACKET - 3 {
      var next := used + |Escaped(payload[0])|;
      KeptFits(payload[1..], next);
      assert payload[..Kept(payload, used)][1..] == payload[1..][..Kept(payload[1..], next)];
    }
  }

  /** One byte of payload goes into the buffer. */
  method PutEscaped(buffer: array<byte>, outLen: nat, c: byte) returns (n: nat)
    requires outLen + 2 <= buffer.Length
    modifies buffer
    ensures n == outLen + |Escaped(c)| && buffer[..n] == old(buffer[..outLen]) + Escaped(c)
  {
    if c == SLIP_END {
      buffer[outLen] := SLIP_ESC;
      buffer[outLen + 1] := SLIP_ESC_END;
      n := outLen + 2;
    } else if c == SLIP_ESC {
      buffer[outLen] := SLIP_ESC;
      buffer[outLen + 1] := SLIP_ESC_ESC;
      n := outLen + 2;
    } else {
      buffer[outLen] := c;
      n := outLen + 1;
    }
  }

  /** One buffer of the chain; `done` is the payload before it. */
  method PutBuffer(payload: seq<byte>, buffer: array<byte>, outLen: nat, ghost done: seq<byte>) returns (n: nat)
    requires buffer.Length == SLIP_MAX_RAW_PACKET && 1 <= outLen <= SLIP_MAX_RAW_PACKET - 2
    requires Progress(done, buffer[..outLen])
    modifies buffer
    ensures 1 <= n <= SLIP_MAX_RAW_PACKET - 2 && Progress(done + payload, buffer[..n])
  {
    n := outLen;
    var i := 0;
    assert done + payload[..0] == done;
    while i < |payload| && n < SLIP_MAX_RAW_PACKET - 3
      invariant 0 <= i <= |payload| && 1 <= n <= SLIP_MAX_RAW_PACKET - 2
      invariant Progress(done + payload[..i], buffer[..n])
    {
      assert done + payload[..i + 1] == done + payload[..i] + [payload[i]];
      Advance(done + payload[..i], buffer[..n], payload[i]);
      n := PutEscaped(buffer, n, payload[i]);
      i := i + 1;
    }
    Stalled(done + payload[..i], payload[i..], buffer[..n]);
    assert done + payload[..i] + payload[i..] == done + payload;
  }

  /** `slip_modem_transmit`: the payload comes as a chain of buffers. */
  method Transmit(chain: seq<seq<byte>>, buffer: array<byte>) returns (outLen: nat)
    requires buffer.Length == SLIP_MAX_RAW_PACKET
    modifies buffer
    ensures outLen < buffer.Length && buffer[..outLen] == Transmitted(Flatten(chain))
  {
    buffer[0] := SLIP_END;
    outLen := 1;
    var q := 0;
    assert buffer[..1] == [SLIP_END];
    while q < |chain|
      invariant 0 <= q <= |chain| && 1 <= outLen <= SLIP_MAX_RAW_PACKET - 2
      invariant Progress(Flatten(chain[..q]), buffer[..outLen])
    {
      assert chain[..q + 1][..q] == chain[..q];
      outLen := PutBuffer(chain[q], buffer, outLen, Flatten(chain[..q]));
      q := q + 1;
    }
    assert chain[..q] == chain;
    ghost var before := buffer[..outLen];
    buffer[outLen] := SLIP_END;
    outLen := outLen + 1;
    assert buffer[..outLen] == before + [SLIP_END];
  }

  /** `output` is the frame so far, with what the encoder takes of `payload`. */
  ghost predicate Progress(payload: seq<byte>, output: seq<byte>) {
    && output == [SLIP_END] + Stuffed(payload[..Kept(payload, 1)])
    && (|output| < SLIP_MAX_RAW_PACKET - 3 ==> Kept(payload, 1) == |payload|)
  }

  lemma Advance(payload: seq<byte>, output: seq<byte>, c: byte)
    requires Progress(payload, output) && |output| < SLIP_MAX_RAW_PACKET - 3
    ensures Progress(payload + [c], output + Escaped(c))
  {
    KeptAppend(payload, c, 1);
    StuffedAppend(payload, [c]);
    assert Stuffed([c]) == Escaped(c);
    assert payload[..|payload|] == payload;
    assert (payload + [c])[..|payload| + 1] == payload + [c];
  }

  /** What comes when the buffer is full, or nothing, changes nothing. */
  lemma Stalled(payload: seq<byte>, more: seq<byte>, output: seq<byte>)
    requires Progress(payload, output) && (more == [] || |output| >= SLIP_MAX_RAW_PACKET - 3)
    ensures Progress(payload + more, output)
  {
    if more == [] {
      assert payload + more == payload;
    } else {
      KeptIsFinal(payload, more, 1);
    }
  }
}
