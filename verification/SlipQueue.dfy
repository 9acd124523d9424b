/**
  The SLIP send queue (main/slip_handle.c:52-70, 297-317, 411-433): one producer puts frames
  into static buffers and their numbers into a queue; one consumer writes them to the UART.

  A buffer is free when its length is zero. Producer and consumer take their steps in any
  order.
 */
module SlipQueue {
  import opened Bits
  import opened Slip

  const SLIP_FLOW_CONTROL_QUEUE_LENGTH: nat := 20

  datatype Producer = Waiting | Found(buffer: nat, frame: seq<byte>) | Filled(buffer: nat)
  datatype Consumer = Receiving | Holding(buffer: nat) | Written(buffer: nat)

  /** A buffer holds its frame; its `length` field is the frame's length, 0 when it is free. */
  datatype Line = Line(
    buffers: seq<seq<byte>>,
    queue: seq<nat>,
    producer: Producer,
    consumer: Consumer,
    accepted: seq<seq<byte>>,
    output: seq<seq<byte>>)

  const START := Line(seq(SLIP_FLOW_CONTROL_QUEUE_LENGTH, _ => []), [], Waiting, Receiving, [], [])

  /** `slip_get_buffer`: the last free buffer, or -1. */
  function FreeBuffer(buffers: seq<seq<byte>>, n: nat): (k: int)
    requires n <= |buffers|
    ensures -1 <= k < n
    ensures k >= 0 ==> buffers[k] == [] && forall j :: k < j < n ==> buffers[j] != []
    ensures k < 0 ==> forall j :: 0 <= j < n ==> buffers[j] != []
  {
    if n == 0 then -1 else if buffers[n - 1] == [] then n - 1 else FreeBuffer(buffers, n - 1)
  }

  /** The loop runs through all buffers and keeps the last free one. */
  method GetBuffer(buffers: seq<seq<byte>>) returns (k: int)
    ensures k == FreeBuffer(buffers, |buffers|)
  {
    k := -1;
    for i := 0 to |buffers|
      invariant k == FreeBuffer(buffers, i)
    {
      if |buffers[i]| == 0 {
        k := i;
      }
    }
  }

  datatype Step = Offer(frame: seq<byte>) | Fill | Send | Receive | Write | Release

  predicate Enabled(s: Line, step: Step) {
    match step
    case Offer(frame) => s.producer == Waiting && frame != []
    case Fill => s.producer.Found?
    case Send => s.producer.Filled?
    case Receive => s.consumer == Receiving && s.queue != []
    case Write => s.consumer.Holding?
    case Release => s.consumer.Written?
  }

  /**
    An offered frame is dropped when it is too long or when no buffer is free. A full queue
    would drop it too and free its buffer.
   */
  function Next(s: Line, step: Step): Line
    requires Enabled(s, step)
  {
    match step
    case Offer(frame) =>
      var k := FreeBuffer(s.buffers, |s.buffers|);
      if |frame| < WIFI_SLIP_MAX_IP_PACKET && k >= 0 then s.(producer := Found(k, frame)) else s
    case Fill =>
      var k := s.producer.buffer;
      if k < |s.buffers| then
        s.(buffers := s.buffers[k := s.producer.frame], producer := Filled(k),
           accepted := s.accepted + [s.producer.frame])
      else s
    case Send =>
      if |s.queue| < SLIP_FLOW_CONTROL_QUEUE_LENGTH then
        s.(queue := s.queue + [s.producer.buffer], producer := Waiting)
      else if s.producer.buffer < |s.buffers| then
        s.(buffers := s.buffers[s.producer.buffer := []], producer := Waiting)
      else s
    case Receive => s.(queue := s.queue[1..], consumer := Holding(s.queue[0]))
    case Write =>
      if s.consumer.buffer < |s.buffers| && s.buffers[s.consumer.buffer] != [] then
        s.(output := s.output + [s.buffers[s.consumer.buffer]], consumer := Written(s.consumer.buffer))
      else s.(consumer := Written(s.consumer.buffer))
    case Release =>
      if s.consumer.buffer < |s.buffers| then
        s.(buffers := s.buffers[s.consumer.buffer := []], consumer := Receiving)
      else s.(consumer := Receiving)
  }

  /** An offered frame is taken exactly when it is short enough and a buffer is free; nothing tells the others. */
  lemma OfferTakenExactly(s: Line, frame: seq<byte>)
    requires Enabled(s, Offer(frame))
    ensures Next(s, Offer(frame)).producer.Found? <==>
            |frame| < 664 && exists k :: 0 <= k < |s.buffers| && s.buffers[k] == []
    ensures Next(s, Offer(frame)).producer.Found? ==> Next(s, Offer(frame)).producer.frame == frame
  {
    assert FreeBuffer(s.buffers, |s.buffers|) >= 0 ==> s.buffers[FreeBuffer(s.buffers, |s.buffers|)] == [];
  }

  // -------------------------------------------------------------------------- the invariant

  /** The buffers on their way: in the consumer's hand, queued, being handed over. */
  function Taken(s: Line): seq<nat> {
    (if s.consumer.Receiving? then [] else [s.consumer.buffer])
    + s.queue
    + (if s.producer.Filled? then [s.producer.buffer] else [])
  }

  /** The buffers whose frames are still to be written. */
  function Unwritten(s: Line): seq<nat> {
    (if s.consumer.Holding? then [s.consumer.buffer] else [])
    + s.queue
    + (if s.producer.Filled? then [s.producer.buffer] else [])
  }

  predicate Distinct(q: seq<nat>) {
    forall i, j :: 0 <= i < j < |q| ==> q[i] != q[j]
  }

  function Frames(buffers: seq<seq<byte>>, q: seq<nat>): seq<seq<byte>>
    requires forall i :: 0 <= i < |q| ==> q[i] < |buffers|
  {
    seq(|q|, i requires 0 <= i < |q| => buffers[q[i]])
  }

  /**
    The used buffers are exactly those on their way, each once; written frames and frames on
    their way are the accepted ones, in order.
   */
  ghost predicate Invariant(s: Line) {
    && |s.buffers| == SLIP_FLOW_CONTROL_QUEUE_LENGTH
    && Distinct(Taken(s))
    && (forall k :: 0 <= k < |s.buffers| ==> (s.buffers[k] != [] <==> k in Taken(s)))
    && (forall i :: 0 <= i < |Taken(s)| ==> Taken(s)[i] < |s.buffers|)
    && (s.producer.Found? ==>
          s.producer.buffer < |s.buffers| && s.producer.buffer !in Taken(s) && s.producer.frame != [])
    && (forall i :: 0 <= i < |Unwritten(s)| ==> Unwritten(s)[i] < |s.buffers|)
    && s.accepted == s.output + Frames(s.buffers, Unwritten(s))
  }

  /** Different numbers below `n` are at most `n`. */
  lemma {:induction false} Pigeonhole(q: seq<nat>, n: nat)
    requires Distinct(q) && forall i :: 0 <= i < |q| ==> q[i] < n
    ensures |q| <= n
  {
    if q != [] {
      assert q[0] < n;
      if k :| 0 <= k < |q| && q[k] == n - 1 {
        var rest := q[..k] + q[k + 1..];
        forall i | 0 <= i < |rest| ensures rest[i] < n - 1 {
          assert rest[i] == if i < k then q[i] else q[i + 1];
          assert rest[i] != q[k];
        }
        forall i, j | 0 <= i < j < |rest| ensures rest[i] != rest[j] {
          assert rest[i] == if i < k then q[i] else q[i + 1];
          assert rest[j] == if j < k then q[j] else q[j + 1];
        }
        Pigeonhole(rest, n - 1);
      } else {
        forall i | 0 <= i < |q| ensures q[i] < n - 1 {
          assert q[i] != n - 1;
        }
        Pigeonhole(q, n - 1);
      }
    }
  }

  /** When a buffer was found, the queue has room for it: nothing is lost in `queue_send`. */
  lemma QueueHasRoom(s: Line)
    requires Invariant(s) && s.producer.Filled?
    ensures |s.queue| < SLIP_FLOW_CONTROL_QUEUE_LENGTH
  {
    Pigeonhole(Taken(s), SLIP_FLOW_CONTROL_QUEUE_LENGTH);
  }

  lemma FramesSame(buffers: seq<seq<byte>>, k: nat, frame: seq<byte>, q: seq<nat>)
    requires k < |buffers| && k !in q && forall i :: 0 <= i < |q| ==> q[i] < |buffers|
    ensures Frames(buffers[k := frame], q) == Frames(buffers, q)
  {
  }

  lemma OfferKeeps(s: Line, frame: seq<byte>)
    requires Invariant(s) && Enabled(s, Offer(frame))
    ensures Invariant(Next(s, Offer(frame)))
  {
    var r := Next(s, Offer(frame));
    assert Taken(r) == Taken(s) && Unwritten(r) == Unwritten(s);
  }

  lemma FillKeeps(s: Line)
    requires Invariant(s) && Enabled(s, Fill)
    ensures Invariant(Next(s, Fill))
  {
    var r, k, frame := Next(s, Fill), s.producer.buffer, s.producer.frame;
    assert Taken(r) == Taken(s) + [k];
    assert Unwritten(r) == Unwritten(s) + [k];
    assert k !in Unwritten(s) by {
      assert forall x :: x in Unwritten(s) ==> x in Taken(s);
    }
    FramesSame(s.buffers, k, frame, Unwritten(s));
    assert Frames(r.buffers, Unwritten(r)) == Frames(r.buffers, Unwritten(s)) + [frame];
  }

  lemma SendKeeps(s: Line)
    requires Invariant(s) && Enabled(s, Send)
    ensures Invariant(Next(s, Send))
  {
    QueueHasRoom(s);
    var r := Next(s, Send);
    assert Taken(r) == Taken(s) && Unwritten(r) == Unwritten(s);
  }

  lemma ReceiveKeeps(s: Line)
    requires Invariant(s) && Enabled(s, Receive)
    ensures Invariant(Next(s, Receive))
  {
    var r := Next(s, Receive);
    assert s.queue == [s.queue[0]] + s.queue[1..];
    assert Taken(r) == Taken(s) && Unwritten(r) == Unwritten(s);
  }

  lemma FramesFirst(buffers: seq<seq<byte>>, k: nat, q: seq<nat>)
    requires forall i :: 0 <= i < |[k] + q| ==> ([k] + q)[i] < |buffers|
    ensures k < |buffers| && forall i :: 0 <= i < |q| ==> q[i] < |buffers|
    ensures Frames(buffers, [k] + q) == [buffers[k]] + Frames(buffers, q)
  {
    assert ([k] + q)[0] == k;
    assert forall i :: 0 <= i < |q| ==> ([k] + q)[i + 1] == q[i];
  }

  lemma WriteKeeps(s: Line)
    requires Invariant(s) && Enabled(s, Write)
    ensures Invariant(Next(s, Write)) && |Next(s, Write).output| == |s.output| + 1
  {
    var r, k := Next(s, Write), s.consumer.buffer;
    assert Taken(s)[0] == k && k in Taken(s);
    assert Taken(r) == Taken(s);
    assert Unwritten(s) == [k] + Unwritten(r);
    FramesFirst(s.buffers, k, Unwritten(r));
  }

  lemma ReleaseKeeps(s: Line)
    requires Invariant(s) && Enabled(s, Release)
    ensures Invariant(Next(s, Release))
  {
    var r, k := Next(s, Release), s.consumer.buffer;
    assert Taken(s)[0] == k;
    assert Taken(s) == [k] + Taken(r);
    assert forall i :: 0 <= i < |Taken(r)| ==> Taken(r)[i] == Taken(s)[i + 1];
    assert Unwritten(r) == Taken(r) && Unwritten(s) == Taken(r);
    FramesSame(s.buffers, k, [], Unwritten(s));
  }

  // ---------------------------------------------------------------------------------- runs

  predicate Possible(s: Line, steps: seq<Step>)
    decreases |steps|
  {
    steps != [] ==> Enabled(s, steps[0]) && Possible(Next(s, steps[0]), steps[1..])
  }

  function After(s: Line, steps: seq<Step>): Line
    requires Possible(s, steps)
    decreases |steps|
  {
    if steps == [] then s else After(Next(s, steps[0]), steps[1..])
  }

  lemma {:induction false} RunsKeep(s: Line, steps: seq<Step>)
    requires Invariant(s) && Possible(s, steps)
    ensures Invariant(After(s, steps))
    decreases |steps|
  {
    if steps != [] {
      match steps[0] {
        case Offer(frame) => OfferKeeps(s, frame);
        case Fill => FillKeeps(s);
        case Send => SendKeeps(s);
        case Receive => ReceiveKeeps(s);
        case Write => WriteKeeps(s);
        case Release => ReleaseKeeps(s);
      }
      RunsKeep(Next(s, steps[0]), steps[1..]);
    }
  }

  /**
    In every interleaving of producer and consumer what the UART gets is a prefix of the accepted
    frames, the rest is on its way, and `queue_send` never fails.
   */
  lemma SentInOrder(steps: seq<Step>)
    requires Possible(START, steps)
    ensures var s := After(START, steps);
            && Invariant(s) && s.output <= s.accepted
            && |s.accepted| == |s.output| + |Unwritten(s)|
            && (s.producer.Filled? ==> |s.queue| < SLIP_FLOW_CONTROL_QUEUE_LENGTH)
  {
    assert Taken(START) == [] && Unwritten(START) == [];
    RunsKeep(START, steps);
    var s := After(START, steps);
    if s.producer.Filled? {
      QueueHasRoom(s);
    }
  }

  /** A frame without bytes breaks the bookkeeping: its buffer looks free while it is queued. */
  lemma EmptyFrameBreaks(s: Line)
    requires |s.buffers| == SLIP_FLOW_CONTROL_QUEUE_LENGTH && s.buffers[19] == []
    requires s.producer == Found(19, []) && |s.queue| < SLIP_FLOW_CONTROL_QUEUE_LENGTH
    ensures var r := Next(Next(s, Fill), Send);
            19 in r.queue && FreeBuffer(r.buffers, |r.buffers|) == 19 && !Invariant(r)
  {
    var r := Next(Next(s, Fill), Send);
    assert r.queue[|s.queue|] == 19;
    assert 19 in Taken(r);
  }
}
