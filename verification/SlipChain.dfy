/**
  Encoder, send queue, UART and receiver together: what comes out of the receiver are the payloads
  of the accepted frames, in order, and each of them was handed to the encoder.
 */
module SlipChain {
  import opened Bits
  import opened Slip
  import opened SlipReceiver
  import opened SlipLaws
  import opened SlipQueue

  /** Frame `f` is the encoder's frame of the payload `p`. */
  predicate Encodes(f: seq<byte>, p: seq<byte>) {
    p != [] && f == Transmitted(p)
  }

  /** Every frame that is offered comes from the encoder. */
  ghost predicate FromEncoder(steps: seq<Step>) {
    forall k :: 0 <= k < |steps| && steps[k].Offer? ==> exists p :: Encodes(steps[k].frame, p)
  }

  /** A frame that some step offers and the queue can take. */
  predicate Offered(steps: seq<Step>, f: seq<byte>) {
    |f| < WIFI_SLIP_MAX_IP_PACKET && Offer(f) in steps
  }

  /** All frames on their way were offered. */
  ghost predicate AllOffered(steps: seq<Step>, s: Line) {
    && (s.producer.Found? ==> Offered(steps, s.producer.frame))
    && forall k :: 0 <= k < |s.accepted| ==> Offered(steps, s.accepted[k])
  }

  lemma StepKeepsOffered(all: seq<Step>, s: Line, step: Step)
    requires AllOffered(all, s) && Enabled(s, step) && step in all
    ensures AllOffered(all, Next(s, step))
  {
  }

  lemma {:induction false} RunKeepsOffered(all: seq<Step>, s: Line, steps: seq<Step>)
    requires AllOffered(all, s) && SlipQueue.Possible(s, steps) && forall k :: 0 <= k < |steps| ==> steps[k] in all
    ensures AllOffered(all, SlipQueue.After(s, steps))
    decreases |steps|
  {
    if steps != [] {
      StepKeepsOffered(all, s, steps[0]);
      RunKeepsOffered(all, Next(s, steps[0]), steps[1..]);
    }
  }

  // ------------------------------------------------------------------------- on the wire

  /** The payload that a receiver takes out of a frame. */
  function PayloadOf(f: seq<byte>): seq<byte> {
    var delivered := DeliveredAll(IDLE, f);
    if delivered == [] then [] else delivered[0]
  }

  function Payloads(frames: seq<seq<byte>>): (r: seq<seq<byte>>)
    ensures |r| == |frames|
  {
    if frames == [] then [] else [PayloadOf(frames[0])] + Payloads(frames[1..])
  }

  /** The frames one behind the other. */
  function OnWire(frames: seq<seq<byte>>): seq<byte> {
    if frames == [] then [] else frames[0] + OnWire(frames[1..])
  }

  /** A frame of the encoder that the queue can take carries the whole payload. */
  lemma OfferedCarries(f: seq<byte>, p: seq<byte>)
    requires |f| < WIFI_SLIP_MAX_IP_PACKET && Encodes(f, p)
    ensures f == Framed(p) && PayloadOf(f) == p
  {
    TruncatedIsNeverQueued(p);
    FrameComesThrough(IDLE, p);
  }

  lemma {:induction false} WireIsStream(frames: seq<seq<byte>>)
    requires forall k :: 0 <= k < |frames| ==> PayloadOf(frames[k]) != [] && frames[k] == Framed(PayloadOf(frames[k]))
    ensures OnWire(frames) == Stream(Payloads(frames))
    ensures forall k :: 0 <= k < |frames| ==> Payloads(frames)[k] != []
    decreases |frames|
  {
    if frames != [] {
      WireIsStream(frames[1..]);
      assert Payloads(frames)[0] == PayloadOf(frames[0]) && Payloads(frames)[1..] == Payloads(frames[1..]);
    }
  }

  /** What the UART got in a run whose frames come from the encoder. */
  lemma OutputIsFramed(steps: seq<Step>, k: nat)
    requires SlipQueue.Possible(START, steps) && FromEncoder(steps)
    requires SlipQueue.After(START, steps).output <= SlipQueue.After(START, steps).accepted
    requires AllOffered(steps, SlipQueue.After(START, steps)) && k < |SlipQueue.After(START, steps).output|
    ensures var f := SlipQueue.After(START, steps).output[k];
            && PayloadOf(f) != [] && f == Framed(PayloadOf(f))
            && Offered(steps, f) && Encodes(f, PayloadOf(f))
  {
    var s := SlipQueue.After(START, steps);
    var f := s.output[k];
    assert f == s.accepted[k];
    var i :| 0 <= i < |steps| && steps[i] == Offer(f);
    var p :| Encodes(steps[i].frame, p);
    OfferedCarries(f, p);
  }

  /**
    From the encoder to the other end: however producer and consumer take their steps and however
    the written bytes are cut into chunks that the receiver accepts, it delivers exactly the
    payloads of the written frames, which are the first of the accepted ones, in order.
   */
  lemma ChainDelivers(steps: seq<Step>, chunks: seq<Chunk>)
    requires SlipQueue.Possible(START, steps) && FromEncoder(steps)
    requires Joined(chunks) == OnWire(SlipQueue.After(START, steps).output) && AllAccepted(IDLE, chunks)
    ensures var s := SlipQueue.After(START, steps);
            && s.output <= s.accepted && FromChunks(IDLE, chunks) == Payloads(s.output)
            && forall k :: 0 <= k < |s.output| ==>
                 Offered(steps, s.output[k]) && Encodes(s.output[k], PayloadOf(s.output[k]))
  {
    var s := SlipQueue.After(START, steps);
    SentInOrder(steps);
    RunKeepsOffered(steps, START, steps);
    forall k | 0 <= k < |s.output|
      ensures PayloadOf(s.output[k]) != [] && s.output[k] == Framed(PayloadOf(s.output[k]))
      ensures Offered(steps, s.output[k]) && Encodes(s.output[k], PayloadOf(s.output[k]))
    {
      OutputIsFramed(steps, k);
    }
    WireIsStream(s.output);
    SlipRoundTrip(Payloads(s.output), chunks);
  }
}
