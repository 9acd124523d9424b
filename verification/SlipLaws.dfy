/**
  Encoder and receiver together: streams of frames come through however they are cut into
  chunks, an over-long payload arrives as a prefix, and any END puts the receiver back in step.
 */
module SlipLaws {
  import opened Bits
  import opened Slip
  import opened SlipReceiver

  lemma {:induction false} TakenAppend(r: Receiver, x: seq<byte>, y: seq<byte>)
    ensures TakenAll(r, x + y) == TakenAll(TakenAll(r, x), y)
    ensures DeliveredAll(r, x + y) == DeliveredAll(r, x) + DeliveredAll(TakenAll(r, x), y)
    decreases |x|
  {
    if x == [] {
      assert x + y == y;
    } else {
      assert (x + y)[1..] == x[1..] + y;
      TakenAppend(Taken(r, x[0]), x[1..], y);
    }
  }

  /** An escaped byte adds itself to what was collected, and delivers nothing. */
  lemma EscapedComesThrough(collected: seq<byte>, c: byte)
    ensures TakenAll(Receiver(false, collected), Escaped(c)) == Receiver(false, collected + [c])
    ensures DeliveredAll(Receiver(false, collected), Escaped(c)) == []
  {
    var r, s := Receiver(false, collected), Escaped(c);
    if |s| == 2 {
      var t := Taken(r, s[0]);
      assert s[1..] == [s[1]] && [s[1]][1..] == [];
      assert TakenAll(t, [s[1]]) == Taken(t, s[1]);
      assert DeliveredAll(t, [s[1]]) == [];
    } else {
      assert s[1..] == [];
    }
  }

  /** An escaped byte, and then bytes that make `whole` of what is collected. */
  lemma EscapedGoesOn(collected: seq<byte>, c: byte, rest: seq<byte>, whole: seq<byte>)
    requires TakenAll(Receiver(false, collected + [c]), rest) == Receiver(false, whole)
    requires DeliveredAll(Receiver(false, collected + [c]), rest) == []
    ensures TakenAll(Receiver(false, collected), Escaped(c) + rest) == Receiver(false, whole)
    ensures DeliveredAll(Receiver(false, collected), Escaped(c) + rest) == []
  {
    EscapedComesThrough(collected, c);
    TakenAppend(Receiver(false, collected), Escaped(c), rest);
  }

  /** A stuffed payload is collected whole. */
  lemma {:induction false} StuffedComesThrough(collected: seq<byte>, payload: seq<byte>)
    ensures TakenAll(Receiver(false, collected), Stuffed(payload)) == Receiver(false, collected + payload)
    ensures DeliveredAll(Receiver(false, collected), Stuffed(payload)) == []
    decreases |payload|
  {
    if payload == [] {
      assert collected + payload == collected;
    } else {
      StuffedComesThrough(collected + [payload[0]], payload[1..]);
      assert collected + [payload[0]] + payload[1..] == collected + payload;
      EscapedGoesOn(collected, payload[0], Stuffed(payload[1..]), collected + payload);
    }
  }

  /**
    Resynchronisation: from any state, after any noise, a frame leaves the receiver idle and
    delivers its payload; before it comes at most what had been collected.
   */
  lemma FrameComesThrough(r: Receiver, payload: seq<byte>)
    ensures TakenAll(r, Framed(payload)) == IDLE
    ensures DeliveredAll(r, Framed(payload)) ==
            (if !r.escape && r.collected != [] then [r.collected] else []) + (if payload != [] then [payload] else [])
  {
    var body := Stuffed(payload);
    assert Framed(payload) == [SLIP_END] + (body + [SLIP_END]);
    assert Framed(payload)[1..] == body + [SLIP_END];
    StuffedComesThrough([], payload);
    TakenAppend(IDLE, body, [SLIP_END]);
    assert [] + payload == payload;
    var full := Receiver(false, payload);
    assert TakenAll(full, [SLIP_END]) == Taken(full, SLIP_END);
    assert DeliveredAll(full, [SLIP_END]) == Delivered(full, SLIP_END) + [];
    assert DeliveredAll(IDLE, body + [SLIP_END]) == Delivered(full, SLIP_END);
  }

  /** The stream of several frames. */
  function Stream(payloads: seq<seq<byte>>): seq<byte> {
    if payloads == [] then [] else Framed(payloads[0]) + Stream(payloads[1..])
  }

  /** The receiver delivers exactly the payloads, in order. */
  lemma {:induction false} StreamComesThrough(payloads: seq<seq<byte>>)
    requires forall k :: 0 <= k < |payloads| ==> payloads[k] != []
    ensures TakenAll(IDLE, Stream(payloads)) == IDLE && DeliveredAll(IDLE, Stream(payloads)) == payloads
    decreases |payloads|
  {
    if payloads != [] {
      FrameComesThrough(IDLE, payloads[0]);
      TakenAppend(IDLE, Framed(payloads[0]), Stream(payloads[1..]));
      StreamComesThrough(payloads[1..]);
    }
  }

  // ------------------------------------------------------------------------------ chunks

  function Joined(chunks: seq<Chunk>): seq<byte> {
    if chunks == [] then [] else chunks[0].data + Joined(chunks[1..])
  }

  /** Every chunk is accepted when it comes. */
  predicate AllAccepted(r: Receiver, chunks: seq<Chunk>)
    decreases |chunks|
  {
    chunks != [] ==> Accepts(r, chunks[0]) && AllAccepted(AfterChunk(r, chunks[0]), chunks[1..])
  }

  /** It does not matter where a stream is cut into chunks, as long as all are accepted. */
  lemma {:induction false} CutsDoNotMatter(r: Receiver, chunks: seq<Chunk>)
    requires AllAccepted(r, chunks)
    ensures FromChunks(r, chunks) == DeliveredAll(r, Joined(chunks))
    ensures AfterChunks(r, chunks) == TakenAll(r, Joined(chunks))
    decreases |chunks|
  {
    if chunks != [] {
      TakenAppend(r, chunks[0].data, Joined(chunks[1..]));
      CutsDoNotMatter(AfterChunk(r, chunks[0]), chunks[1..]);
    }
  }

  /** The round trip over streams, for every way to cut them that the receiver accepts. */
  lemma SlipRoundTrip(payloads: seq<seq<byte>>, chunks: seq<Chunk>)
    requires forall k :: 0 <= k < |payloads| ==> payloads[k] != []
    requires Joined(chunks) == Stream(payloads) && AllAccepted(IDLE, chunks)
    ensures FromChunks(IDLE, chunks) == payloads && AfterChunks(IDLE, chunks) == IDLE
  {
    CutsDoNotMatter(IDLE, chunks);
    StreamComesThrough(payloads);
  }

  /** Inside a frame no more is collected than its payload has. */
  lemma {:induction false} PartOfStuffed(collected: seq<byte>, payload: seq<byte>, y: seq<byte>)
    requires y <= Stuffed(payload)
    ensures |TakenAll(Receiver(false, collected), y).collected| <= |collected| + |payload|
    decreases |payload|
  {
    if y != [] {
      var e, rest := Escaped(payload[0]), Stuffed(payload[1..]);
      if |y| >= |e| {
        var z := y[|e|..];
        assert y == e + z;
        EscapedComesThrough(collected, payload[0]);
        TakenAppend(Receiver(false, collected), e, z);
        PartOfStuffed(collected + [payload[0]], payload[1..], z);
      } else {
        assert y == [SLIP_ESC];
        assert TakenAll(Receiver(false, collected), y) == Taken(Receiver(false, collected), SLIP_ESC);
      }
    }
  }

  lemma PartOfFrame(payload: seq<byte>, y: seq<byte>)
    requires y <= Framed(payload)
    ensures |TakenAll(IDLE, y).collected| <= |payload|
  {
    if y != [] {
      var z := y[1..];
      assert Framed(payload)[1..] == Stuffed(payload) + [SLIP_END];
      assert Taken(IDLE, y[0]) == IDLE;
      if |z| <= |Stuffed(payload)| {
        PartOfStuffed([], payload, z);
      } else {
        assert y == Framed(payload);
        FrameComesThrough(IDLE, payload);
      }
    }
  }

  /** Anywhere in a stream no more is collected than the longest payload has. */
  lemma {:induction false} PartOfStream(payloads: seq<seq<byte>>, longest: nat, y: seq<byte>)
    requires forall k :: 0 <= k < |payloads| ==> |payloads[k]| <= longest
    requires y <= Stream(payloads)
    ensures |TakenAll(IDLE, y).collected| <= longest
    decreases |payloads|
  {
    if payloads != [] {
      var f := Framed(payloads[0]);
      if |y| <= |f| {
        PartOfFrame(payloads[0], y);
      } else {
        var z := y[|f|..];
        assert y == f + z;
        FrameComesThrough(IDLE, payloads[0]);
        TakenAppend(IDLE, f, z);
        PartOfStream(payloads[1..], longest, z);
      }
    }
  }

  /** Chunks that leave room for the longest payload are all accepted. */
  lemma {:induction false} ShortChunksAccepted(payloads: seq<seq<byte>>, longest: nat, done: seq<byte>,
                                               chunks: seq<Chunk>)
    requires forall k :: 0 <= k < |payloads| ==> |payloads[k]| <= longest
    requires done + Joined(chunks) == Stream(payloads)
    requires forall k :: 0 <= k < |chunks| ==> !chunks[k].claimed && longest + |chunks[k].data| < SLIP_MAX_RAW_PACKET
    ensures AllAccepted(TakenAll(IDLE, done), chunks)
    decreases |chunks|
  {
    if chunks != [] {
      var x := chunks[0].data;
      PartOfStream(payloads, longest, done);
      TakenAppend(IDLE, done, x);
      assert done + x + Joined(chunks[1..]) == done + Joined(chunks);
      ShortChunksAccepted(payloads, longest, done + x, chunks[1..]);
    }
  }

  /** So streams survive any cut into unclaimed chunks that leave room for the longest payload. */
  lemma ShortChunksRoundTrip(payloads: seq<seq<byte>>, longest: nat, chunks: seq<Chunk>)
    requires forall k :: 0 <= k < |payloads| ==> 0 < |payloads[k]| <= longest
    requires Joined(chunks) == Stream(payloads)
    requires forall k :: 0 <= k < |chunks| ==> !chunks[k].claimed && longest + |chunks[k].data| < SLIP_MAX_RAW_PACKET
    ensures FromChunks(IDLE, chunks) == payloads
  {
    assert [] + Joined(chunks) == Stream(payloads);
    ShortChunksAccepted(payloads, longest, [], chunks);
    SlipRoundTrip(payloads, chunks);
  }

  // ----------------------------------------------------------------- long payloads

  /** What the encoder sends arrives as a prefix of the payload: all of it exactly when it fits. */
  lemma TransmittedArrives(payload: seq<byte>)
    ensures |Transmitted(payload)| <= SLIP_MAX_RAW_PACKET - 1
    ensures DeliveredAll(IDLE, Transmitted(payload)) ==
            (if Kept(payload, 1) > 0 then [payload[..Kept(payload, 1)]] else [])
    ensures payload != [] ==> Kept(payload, 1) > 0
    ensures Kept(payload, 1) == |payload| || |Transmitted(payload)| >= SLIP_MAX_RAW_PACKET - 2
  {
    KeptFits(payload, 1);
    FrameComesThrough(IDLE, payload[..Kept(payload, 1)]);
  }

  /** A payload fits exactly when everything before its last byte leaves room for one more. */
  lemma {:induction false} KeptWholeExactly(payload: seq<byte>, used: nat)
    requires payload != []
    ensures Kept(payload, used) == |payload| <==>
            used + |Stuffed(payload[..|payload| - 1])| < SLIP_MAX_RAW_PACKET - 3
    decreases |payload|
  {
    var n := |payload| - 1;
    var front, rest := payload[..n], payload[1..];
    if n > 0 {
      assert front[1..] == rest[..n - 1];
      KeptWholeExactly(rest, used + |Escaped(payload[0])|);
    }
  }

  // ------------------------------------------------------------------ towards the queue

  /**
    Only frames below 664 bytes enter the send queue; the others vanish without an error. So a
    truncated frame is never sent.
   */
  lemma TruncatedIsNeverQueued(payload: seq<byte>)
    requires |Transmitted(payload)| < WIFI_SLIP_MAX_IP_PACKET
    ensures Kept(payload, 1) == |payload| && Transmitted(payload) == Framed(payload)
  {
    TransmittedArrives(payload);
    assert payload[..|payload|] == payload;
  }
}
