/**
  The frames of main/slip_handle.c against RFC 1055, by the numbers: END is 192, ESC 219, and behind
  ESC 220 stands for END and 221 for ESC. A frame is read here by a decoder of its own.
 */
module Rfc1055 {
  import opened Bits
  import opened Memory
  import opened Slip
  import opened SlipReceiver
  import opened SlipLaws
  import SlipQueue

  /** The payload behind what lies between two ENDs, unless an ESC is followed by something else. */
  function Unescaped(s: seq<byte>): Option<seq<byte>> {
    if s == [] then Some([])
    else if s[0] == 192 then None
    else if s[0] != 219 then Before(s[0], Unescaped(s[1..]))
    else if |s| > 1 && s[1] == 220 then Before(192, Unescaped(s[2..]))
    else if |s| > 1 && s[1] == 221 then Before(219, Unescaped(s[2..]))
    else None
  }

  function Before(c: byte, rest: Option<seq<byte>>): Option<seq<byte>> {
    if rest == None then None else Some([c] + rest.value)
  }

  /** The bytes that a payload takes between its ENDs: two for each 192 and 219. */
  function Length(payload: seq<byte>): nat {
    if payload == [] then 0 else (if payload[0] == 192 || payload[0] == 219 then 2 else 1) + Length(payload[1..])
  }

  lemma {:induction false} StuffedIsRfc(payload: seq<byte>)
    ensures Unescaped(Stuffed(payload)) == Some(payload) && |Stuffed(payload)| == Length(payload)
    ensures forall k :: 0 <= k < |Stuffed(payload)| ==> Stuffed(payload)[k] != 192
  {
    if payload != [] {
      var rest := Stuffed(payload[1..]);
      StuffedIsRfc(payload[1..]);
      EscapedIsRfc(payload[0], rest, payload[1..]);
      assert [payload[0]] + payload[1..] == payload;
    }
  }

  lemma EscapedIsRfc(c: byte, rest: seq<byte>, payload: seq<byte>)
    requires Unescaped(rest) == Some(payload) && forall k :: 0 <= k < |rest| ==> rest[k] != 192
    ensures Unescaped(Escaped(c) + rest) == Some([c] + payload)
    ensures |Escaped(c)| == if c == 192 || c == 219 then 2 else 1
    ensures forall k :: 0 <= k < |Escaped(c) + rest| ==> (Escaped(c) + rest)[k] != 192
  {
    var s := Escaped(c) + rest;
    if |Escaped(c)| == 2 {
      assert s[2..] == rest;
    } else {
      assert s[1..] == rest;
    }
  }

  /** What `slip_modem_transmit` makes of a payload: a frame as RFC 1055 has it. */
  predicate IsFrame(f: seq<byte>, payload: seq<byte>) {
    var n := |f| - 1;
    && n > 0 && f[0] == 192 && f[n] == 192
    && (forall k :: 0 < k < n ==> f[k] != 192)
    && Unescaped(f[1..n]) == Some(payload)
  }

  lemma FramedIsFrame(payload: seq<byte>)
    ensures IsFrame(Framed(payload), payload)
  {
    var f := Framed(payload);
    StuffedIsRfc(payload);
    assert f[1..|f| - 1] == Stuffed(payload);
    forall k | 0 < k < |f| - 1 ensures f[k] != 192 {
      assert f[k] == Stuffed(payload)[k - 1];
    }
  }

  /**
    The encoder's frame carries the whole payload exactly when all of it but its last byte takes
    less than 1324 bytes, and else a prefix of it that takes 1324 or 1325.
   */
  lemma TransmittedIsRfc(payload: seq<byte>)
    requires payload != []
    ensures exists n :: 0 < n <= |payload| && IsFrame(Transmitted(payload), payload[..n])
                        && (n == |payload| <==> Length(payload[..|payload| - 1]) < 1324)
                        && (n < |payload| ==> 1324 <= Length(payload[..n]) <= 1325)
  {
    var n := Kept(payload, 1);
    KeptWholeExactly(payload, 1);
    KeptFits(payload, 1);
    StuffedIsRfc(payload[..|payload| - 1]);
    StuffedIsRfc(payload[..n]);
    FramedIsFrame(payload[..n]);
    assert 0 < n <= |payload| && IsFrame(Transmitted(payload), payload[..n]);
  }

  // ---------------------------------------------------------------------- the receiver

  /** Two bytes one after the other. */
  lemma TakenTwo(r: Receiver, x: byte, y: byte, rest: seq<byte>)
    ensures TakenAll(r, [x, y] + rest) == TakenAll(Taken(Taken(r, x), y), rest)
    ensures DeliveredAll(r, [x, y] + rest)
         == Delivered(r, x) + (Delivered(Taken(r, x), y) + DeliveredAll(Taken(Taken(r, x), y), rest))
  {
    assert ([x, y] + rest)[1..] == [y] + rest && ([y] + rest)[1..] == rest;
  }

  /** The receiver collects what RFC 1055 reads out of the bytes between ENDs, and delivers nothing yet. */
  lemma {:induction false} CollectsRfc(collected: seq<byte>, s: seq<byte>)
    requires Unescaped(s).Some?
    ensures TakenAll(Receiver(false, collected), s) == Receiver(false, collected + Unescaped(s).value)
    ensures DeliveredAll(Receiver(false, collected), s) == []
    decreases |s|
  {
    if s == [] {
      assert collected + Unescaped(s).value == collected;
    } else if s[0] != 219 {
      CollectsRfc(collected + [s[0]], s[1..]);
      assert collected + [s[0]] + Unescaped(s[1..]).value == collected + Unescaped(s).value;
    } else {
      var c: byte := if s[1] == 220 then 192 else 219;
      assert s == [s[0], s[1]] + s[2..];
      TakenTwo(Receiver(false, collected), s[0], s[1], s[2..]);
      CollectsRfc(collected + [c], s[2..]);
      assert collected + [c] + Unescaped(s[2..]).value == collected + Unescaped(s).value;
    }
  }

  /** Whatever frame of RFC 1055 comes, the receiver delivers its payload, unless that is empty. */
  lemma ReceiverReadsRfc(f: seq<byte>, payload: seq<byte>)
    requires IsFrame(f, payload)
    ensures DeliveredAll(IDLE, f) == (if payload == [] then [] else [payload]) && TakenAll(IDLE, f) == IDLE
  {
    var n := |f| - 1;
    var body := f[1..n];
    assert f == [f[0]] + (body + [f[n]]);
    assert f[1..] == body + [f[n]];
    CollectsRfc([], body);
    assert [] + payload == payload;
    TakenAppend(IDLE, body, [f[n]]);
    LastEnd(Receiver(false, payload), f[n]);
  }

  lemma LastEnd(r: Receiver, b: byte)
    requires !r.escape && b == 192
    ensures TakenAll(r, [b]) == IDLE && DeliveredAll(r, [b]) == if r.collected == [] then [] else [r.collected]
  {
    assert [b][1..] == [];
  }

  /** ESC before anything but 220 and 221 drops what was collected, and nothing of it is delivered. */
  lemma BrokenEscapeDrops(collected: seq<byte>, b: byte)
    requires b != 220 && b != 221
    ensures TakenAll(Receiver(false, collected), [219, b]) == IDLE
    ensures DeliveredAll(Receiver(false, collected), [219, b]) == []
  {
    TakenTwo(Receiver(false, collected), 219, b, []);
    assert [219, b] + [] == [219, b];
  }

  /**
    A chunk is read, byte by byte, exactly when it is not claimed and leaves room in the buffer of
    1328 bytes; otherwise what was collected is dropped with it.
   */
  lemma ChunkReadExactly(r: Receiver, c: Chunk)
    ensures AfterChunk(r, c) ==
            if c.claimed || |r.collected| + |c.data| >= 1328 then Receiver(r.escape, []) else TakenAll(r, c.data)
    ensures FromChunk(r, c) ==
            if c.claimed || |r.collected| + |c.data| >= 1328 then [] else DeliveredAll(r, c.data)
  {
  }

  /** The line begins with twenty free buffers, and a frame of up to 663 bytes goes into the last of them. */
  lemma TwentyBuffers(frame: seq<byte>)
    requires frame != []
    ensures |SlipQueue.START.buffers| == 20 && SlipQueue.Enabled(SlipQueue.START, SlipQueue.Offer(frame))
    ensures SlipQueue.Next(SlipQueue.START, SlipQueue.Offer(frame)).producer ==
            if |frame| <= 663 then SlipQueue.Found(19, frame) else SlipQueue.Waiting
  {
    assert SlipQueue.START.buffers[19] == [];
  }
}
