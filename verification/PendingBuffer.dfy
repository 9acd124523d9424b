/**
  The pending buffer of the write path (main/regs.c:109-137, 424-437 and
  main/regs_description.c:578-630): the bytes of one element are collected, in any order, and
  the element is committed when all of them have arrived.

  What the elements are and what a commit does is left open here: an `Engine` supplies both.
  Byte-wise writing is proved to be element-wise writing for every engine, and exactly when.
 */
module PendingBuffer {
  import opened Bits
  import opened Memory

  const ILLEGAL_DATA_ADDRESS := 2
  const ILLEGAL_DATA_VALUE := 3

  /** An element of a register: its address and its number of bytes. */
  datatype Spot = Spot(start: nat, item: nat)

  /**
    The surroundings of the pending buffer. `locate` finds the element that an address
    belongs to, `allowed` decides whether it may be written, and `commit` stores complete
    bytes and returns the result code.
   */
  datatype Engine<!S> = Engine(
    locate: nat -> Option<Spot>,
    allowed: (S, nat) -> bool,
    commit: (S, nat, seq<byte>) -> (S, int))

  /** An element of one to eight bytes around `a`, not at NULL. */
  predicate Around(spot: Spot, a: nat) {
    0 < spot.start <= a < spot.start + spot.item && spot.item <= 8
  }

  /** The element that `a` belongs to. */
  function Locate<S>(eng: Engine<S>, a: nat): (r: Option<Spot>)
    ensures r.Some? ==> Around(r.value, a)
  {
    var r := eng.locate(a);
    if r.Some? && Around(r.value, a) then r else None
  }

  /** Elements do not overlap. */
  ghost predicate Coherent<S>(eng: Engine<S>) {
    forall a, b {:trigger Around(Locate(eng, a).value, b)} ::
      Locate(eng, a).Some? && Around(Locate(eng, a).value, b) ==> Locate(eng, b) == Locate(eng, a)
  }

  /**
    The eight bytes of the buffer with their written flags: a cell is None until its byte is
    written.
   */
  type Cells = c: seq<Option<byte>> | |c| == 8 witness [None, None, None, None, None, None, None, None]

  const BLANK: Cells := [None, None, None, None, None, None, None, None]

  /** `temp_data_buffering_t`; address 0 stands for NULL. */
  datatype Pending = Pending(address: nat, cells: Cells)

  const CLEARED: Pending := Pending(0, BLANK)

  datatype Outcome<+S> = Outcome(state: S, pending: Pending, code: int)

  /** `regs_check_temp_buffer`: the first `n` bytes are all written. */
  predicate Full(cells: Cells, n: nat) {
    n <= 8 && forall i :: 0 <= i < n ==> cells[i].Some?
  }

  /** The bytes of a full buffer. */
  function Collected(cells: Cells, n: nat): (s: seq<byte>)
    requires Full(cells, n)
    ensures |s| == n
  {
    if n == 0 then [] else Collected(cells, n - 1) + [cells[n - 1].value]
  }

  /** The buffer as an access to element `e` finds it: started afresh unless it holds `e`. */
  function Aimed(p: Pending, e: nat): Pending {
    if p.address != e then Pending(e, BLANK) else p
  }

  /** The bytes of `data` are written from cell `off` on. */
  function Poke(cells: Cells, off: nat, data: seq<byte>): (r: Cells)
    requires off + |data| <= 8
    decreases |data|
  {
    if data == [] then cells else Poke(cells[off := Some(data[0])], off + 1, data[1..])
  }

  lemma {:induction false} PokeAt(cells: Cells, off: nat, data: seq<byte>, k: nat)
    requires off + |data| <= 8 && k < 8
    ensures Poke(cells, off, data)[k] == if off <= k < off + |data| then Some(data[k - off]) else cells[k]
    decreases |data|
  {
    if data != [] {
      PokeAt(cells[off := Some(data[0])], off + 1, data[1..], k);
    }
  }

  /** `regs_fill_temp_buffer`: what does not fit into the element is cut off. */
  function Fill(spot: Spot, p: Pending, a: nat, data: seq<byte>): Pending
    requires spot.start <= a < spot.start + spot.item && spot.item <= 8
  {
    var n := if |data| > spot.start + spot.item - a then spot.start + spot.item - a else |data|;
    Pending(spot.start, Poke(Aimed(p, spot.start).cells, a - spot.start, data[..n]))
  }

  /** A filled buffer is committed when it is complete and kept otherwise. */
  function Deposit<S>(eng: Engine<S>, s: S, spot: Spot, p: Pending): Outcome<S> {
    if Full(p.cells, spot.item) then
      var done := eng.commit(s, spot.start, Collected(p.cells, spot.item));
      Outcome(done.0, CLEARED, done.1)
    else Outcome(s, p, 1)
  }

  /** `regs_set` */
  function Access<S>(eng: Engine<S>, s: S, p: Pending, a: nat, data: seq<byte>): Outcome<S> {
    var spot := Locate(eng, a);
    if spot == None || !eng.allowed(s, spot.value.start) then Outcome(s, p, -ILLEGAL_DATA_ADDRESS)
    else Deposit(eng, s, spot.value, Fill(spot.value, p, a, data))
  }

  /** `regs_set_buffer`: one access per byte, stopped by the first error. */
  function SetBytes<S>(eng: Engine<S>, s: S, p: Pending, a: nat, data: seq<byte>): Outcome<S>
    decreases |data|
  {
    if data == [] then Outcome(s, p, 0)
    else
      var first := Access(eng, s, p, a, [data[0]]);
      if first.code < 0 || |data| == 1 then first
      else SetBytes(eng, first.state, first.pending, a + 1, data[1..])
  }

  /** How many of the next `n` bytes belong to the element at `a`. */
  function ChunkLength<S>(eng: Engine<S>, a: nat, n: nat): (c: nat)
    requires n > 0
    ensures 0 < c <= n
  {
    if Locate(eng, a) == None then 1
    else
      var left := Locate(eng, a).value.start + Locate(eng, a).value.item - a;
      if n < left then n else left
  }

  /** The same write, one access per element. */
  function SetElements<S>(eng: Engine<S>, s: S, p: Pending, a: nat, data: seq<byte>): Outcome<S>
    decreases |data|
  {
    if data == [] then Outcome(s, p, 0)
    else
      var c := ChunkLength(eng, a, |data|);
      var first := Access(eng, s, p, a, data[..c]);
      if first.code < 0 || |data| == c then first
      else SetElements(eng, first.state, first.pending, a + c, data[c..])
  }

  // ------------------------------------------------------------------ inside an element

  /**
    Stale bytes that complete the element too early: the last byte about to be written is
    pending already, and together with the pending bytes the new ones complete the element.
   */
  predicate Early(cells: Cells, off: nat, data: seq<byte>, item: nat)
    requires data != [] && off + |data| <= item <= 8
  {
    cells[off + |data| - 1].Some? && Full(Poke(cells, off, data), item)
  }

  /** `data` lies inside element `spot` and no stale bytes complete it early. */
  predicate Calm(spot: Spot, p: Pending, a: nat, data: seq<byte>) {
    && spot.item <= 8 && spot.start <= a && data != [] && a + |data| <= spot.start + spot.item
    && !Early(Aimed(p, spot.start).cells, a - spot.start, data, spot.item)
  }

  lemma FillWithin(spot: Spot, p: Pending, a: nat, data: seq<byte>)
    requires spot.item <= 8 && spot.start <= a < spot.start + spot.item
    requires a + |data| <= spot.start + spot.item
    ensures Fill(spot, p, a, data).cells == Poke(Aimed(p, spot.start).cells, a - spot.start, data)
  {
    assert data[..|data|] == data;
  }

  /** Filling the first byte and then the rest is filling at once. */
  lemma FillTwice(spot: Spot, p: Pending, a: nat, data: seq<byte>)
    requires spot.item <= 8 && spot.start <= a && |data| > 1
    requires a + |data| <= spot.start + spot.item
    ensures Fill(spot, Fill(spot, p, a, [data[0]]), a + 1, data[1..]) == Fill(spot, p, a, data)
  {
    FillWithin(spot, p, a, [data[0]]);
    FillWithin(spot, Fill(spot, p, a, [data[0]]), a + 1, data[1..]);
    FillWithin(spot, p, a, data);
  }

  lemma FullStaysFull(cells: Cells, off: nat, data: seq<byte>, n: nat)
    requires off + |data| <= 8
    ensures Full(cells, n) ==> Full(Poke(cells, off, data), n)
  {
    if Full(cells, n) {
      forall i | 0 <= i < n ensures Poke(cells, off, data)[i].Some? {
        PokeAt(cells, off, data, i);
      }
    }
  }

  /** The first of several calm bytes completes nothing, and the rest stays calm. */
  lemma FirstByteWaits(spot: Spot, p: Pending, a: nat, data: seq<byte>)
    requires Calm(spot, p, a, data) && |data| > 1
    ensures !Full(Fill(spot, p, a, [data[0]]).cells, spot.item)
    ensures Calm(spot, Fill(spot, p, a, [data[0]]), a + 1, data[1..])
  {
    FillWithin(spot, p, a, [data[0]]);
    var off := a - spot.start;
    var cells := Aimed(p, spot.start).cells;
    var next := Poke(cells, off, [data[0]]);
    assert next == cells[off := Some(data[0])];
    assert next[off + |data| - 1] == cells[off + |data| - 1];
    assert Poke(next, off + 1, data[1..]) == Poke(cells, off, data);
    FullStaysFull(next, off + 1, data[1..], spot.item);
  }

  /** All addresses of an element lead to it. */
  lemma SameElement<S>(eng: Engine<S>, a: nat, b: nat)
    requires Coherent(eng) && Locate(eng, a).Some? && Around(Locate(eng, a).value, b)
    ensures Locate(eng, b) == Locate(eng, a)
  {
  }

  /** An access inside an allowed element. */
  lemma AccessInside<S>(eng: Engine<S>, s: S, p: Pending, spot: Spot, a: nat, data: seq<byte>)
    requires Coherent(eng) && Locate(eng, spot.start) == Some(spot)
    requires spot.start <= a < spot.start + spot.item && eng.allowed(s, spot.start)
    ensures spot.item <= 8 && Access(eng, s, p, a, data) == Deposit(eng, s, spot, Fill(spot, p, a, data))
  {
    SameElement(eng, spot.start, a);
  }

  lemma {:induction false} ChunkInside<S>(eng: Engine<S>, s: S, p: Pending, spot: Spot, a: nat, data: seq<byte>)
    requires Coherent(eng) && Locate(eng, spot.start) == Some(spot)
    requires eng.allowed(s, spot.start) && Calm(spot, p, a, data)
    ensures SetBytes(eng, s, p, a, data) == Deposit(eng, s, spot, Fill(spot, p, a, data))
    decreases |data|
  {
    AccessInside(eng, s, p, spot, a, [data[0]]);
    if |data| == 1 {
      assert [data[0]] == data;
    } else {
      FirstByteWaits(spot, p, a, data);
      FillTwice(spot, p, a, data);
      ChunkInside(eng, s, Fill(spot, p, a, [data[0]]), spot, a + 1, data[1..]);
    }
  }

  /** Inside one element the bytes go together, unless stale bytes complete it early. */
  lemma ChunkRefines<S>(eng: Engine<S>, s: S, p: Pending, a: nat, data: seq<byte>)
    requires Coherent(eng) && Locate(eng, a).Some? && Calm(Locate(eng, a).value, p, a, data)
    ensures SetBytes(eng, s, p, a, data) == Access(eng, s, p, a, data)
  {
    var spot := Locate(eng, a).value;
    SameElement(eng, a, spot.start);
    if eng.allowed(s, spot.start) {
      ChunkInside(eng, s, p, spot, a, data);
    }
  }

  // --------------------------------------------------------------------- whole buffers

  /** The part of `data` that goes into the first element. */
  function Leading<S>(eng: Engine<S>, a: nat, data: seq<byte>): (s: seq<byte>)
    requires data != []
    ensures 0 < |s| <= |data|
  {
    data[..ChunkLength(eng, a, |data|)]
  }

  /** No stale bytes spoil a write of `data` at `a`: only its first element can suffer. */
  predicate Undisturbed<S>(eng: Engine<S>, p: Pending, a: nat, data: seq<byte>) {
    data != [] && Locate(eng, a).Some? ==> Calm(Locate(eng, a).value, p, a, Leading(eng, a, data))
  }

  /** The buffer holds nothing of the element at `a`. */
  predicate FreshAt<S>(eng: Engine<S>, p: Pending, a: nat) {
    Locate(eng, a).Some? ==> p.address != Locate(eng, a).value.start
  }

  lemma FreshIsUndisturbed<S>(eng: Engine<S>, p: Pending, a: nat, data: seq<byte>)
    requires Coherent(eng) && FreshAt(eng, p, a)
    ensures Undisturbed(eng, p, a, data)
  {
    if data != [] && Locate(eng, a).Some? {
    }
  }

  lemma {:induction false} BytesAppend<S>(eng: Engine<S>, s: S, p: Pending, a: nat, x: seq<byte>, y: seq<byte>)
    requires x != [] && y != []
    ensures var first := SetBytes(eng, s, p, a, x);
            SetBytes(eng, s, p, a, x + y) ==
            if first.code < 0 then first else SetBytes(eng, first.state, first.pending, a + |x|, y)
    decreases |x|
  {
    var z := x + y;
    assert [z[0]] == [x[0]];
    var one := Access(eng, s, p, a, [x[0]]);
    if |x| == 1 {
      assert z[1..] == y && [x[0]] == x;
    } else if one.code >= 0 {
      assert z[1..] == x[1..] + y;
      BytesAppend(eng, one.state, one.pending, a + 1, x[1..], y);
    }
  }

  /** `x` fills up the element at `a`. */
  predicate EndsElement<S>(eng: Engine<S>, a: nat, x: seq<byte>) {
    && x != [] && Locate(eng, a).Some?
    && a + |x| == Locate(eng, a).value.start + Locate(eng, a).value.item
  }

  /** Behind an element that was filled up the buffer holds nothing. */
  lemma FreshBehind<S>(eng: Engine<S>, s: S, p: Pending, a: nat, x: seq<byte>)
    requires Coherent(eng) && EndsElement(eng, a, x)
    ensures var first := Access(eng, s, p, a, x);
            first.code >= 0 ==> FreshAt(eng, first.pending, a + |x|)
  {
    var next := Locate(eng, a + |x|);
    if next.Some? && next.value.start == Locate(eng, a).value.start {
      SameElement(eng, a, next.value.start);
      SameElement(eng, a + |x|, next.value.start);
      assert false;
    }
  }

  /** Byte-wise writing goes on behind an element as if that had been written at once. */
  lemma BytesBehind<S>(eng: Engine<S>, s: S, p: Pending, a: nat, x: seq<byte>, y: seq<byte>)
    requires Coherent(eng) && EndsElement(eng, a, x) && Calm(Locate(eng, a).value, p, a, x) && y != []
    ensures var first := Access(eng, s, p, a, x);
            SetBytes(eng, s, p, a, x + y) ==
            if first.code < 0 then first else SetBytes(eng, first.state, first.pending, a + |x|, y)
  {
    ChunkRefines(eng, s, p, a, x);
    BytesAppend(eng, s, p, a, x, y);
  }

  lemma ElementsBehind<S>(eng: Engine<S>, s: S, p: Pending, a: nat, x: seq<byte>, y: seq<byte>)
    requires EndsElement(eng, a, x) && y != []
    ensures var first := Access(eng, s, p, a, x);
            SetElements(eng, s, p, a, x + y) ==
            if first.code < 0 then first else SetElements(eng, first.state, first.pending, a + |x|, y)
  {
    assert (x + y)[..|x|] == x && (x + y)[|x|..] == y;
  }

  lemma ElementsWithin<S>(eng: Engine<S>, s: S, p: Pending, a: nat, x: seq<byte>)
    requires x != [] && ChunkLength(eng, a, |x|) == |x|
    ensures SetElements(eng, s, p, a, x) == Access(eng, s, p, a, x)
  {
    assert x[..|x|] == x;
  }

  lemma LastElementAgrees<S>(eng: Engine<S>, s: S, p: Pending, a: nat, x: seq<byte>)
    requires Coherent(eng) && x != [] && ChunkLength(eng, a, |x|) == |x|
    requires Locate(eng, a).Some? && Calm(Locate(eng, a).value, p, a, x)
    ensures SetBytes(eng, s, p, a, x) == SetElements(eng, s, p, a, x)
  {
    ChunkRefines(eng, s, p, a, x);
    ElementsWithin(eng, s, p, a, x);
  }

  /** The bytes for the first element, and those behind it. */
  lemma SplitLeading<S>(eng: Engine<S>, a: nat, data: seq<byte>) returns (x: seq<byte>, y: seq<byte>)
    requires data != [] && Locate(eng, a).Some?
    ensures x == Leading(eng, a, data) && data == x + y && |y| < |data|
    ensures y != [] ==> EndsElement(eng, a, x)
    ensures y == [] ==> ChunkLength(eng, a, |x|) == |x|
  {
    var c := ChunkLength(eng, a, |data|);
    x, y := data[..c], data[c..];
  }

  /** What agrees behind the first element agrees with it. */
  lemma AgreeBehind<S>(eng: Engine<S>, s: S, p: Pending, a: nat, x: seq<byte>, y: seq<byte>)
    requires Coherent(eng) && EndsElement(eng, a, x) && Calm(Locate(eng, a).value, p, a, x) && y != []
    requires var first := Access(eng, s, p, a, x);
             first.code < 0 || SetBytes(eng, first.state, first.pending, a + |x|, y)
                               == SetElements(eng, first.state, first.pending, a + |x|, y)
    ensures SetBytes(eng, s, p, a, x + y) == SetElements(eng, s, p, a, x + y)
  {
    BytesBehind(eng, s, p, a, x, y);
    ElementsBehind(eng, s, p, a, x, y);
  }

  /**
    Writing a buffer byte by byte is writing it element by element: the same state, the same
    pending bytes and the same result code, for partial, rejected and forbidden elements too.
   */
  lemma {:induction false} BytewiseIsElementwise<S>(eng: Engine<S>, s: S, p: Pending, a: nat, data: seq<byte>)
    requires Coherent(eng) && Undisturbed(eng, p, a, data)
    ensures SetBytes(eng, s, p, a, data) == SetElements(eng, s, p, a, data)
    decreases |data|
  {
    if data != [] && Locate(eng, a).Some? {
      var x, y := SplitLeading(eng, a, data);
      if y == [] {
        assert data == x;
        LastElementAgrees(eng, s, p, a, x);
      } else {
        var first := Access(eng, s, p, a, x);
        if first.code >= 0 {
          FreshBehind(eng, s, p, a, x);
          FreshIsUndisturbed(eng, first.pending, a + |x|, y);
          BytewiseIsElementwise(eng, first.state, first.pending, a + |x|, y);
        }
        AgreeBehind(eng, s, p, a, x, y);
      }
    }
  }

  // ----------------------------------------------------------------------- stale bytes

  /** A buffer that can occur: it holds nothing, or some but not all bytes of an element. */
  predicate PendingOk<S>(eng: Engine<S>, p: Pending) {
    p == CLEARED ||
    (Locate(eng, p.address).Some? && Locate(eng, p.address).value.start == p.address
     && !Full(p.cells, Locate(eng, p.address).value.item))
  }

  /** A cell that was blank and is not written keeps the element incomplete. */
  lemma GapStaysOpen(spot: Spot, p: Pending, a: nat, data: seq<byte>, k: nat)
    requires Around(spot, a) && a + |data| <= spot.start + spot.item && k < spot.item
    requires Aimed(p, spot.start).cells[k] == None
    requires k < a - spot.start || a - spot.start + |data| <= k
    ensures !Full(Fill(spot, p, a, data).cells, spot.item)
  {
    FillWithin(spot, p, a, data);
    PokeAt(Aimed(p, spot.start).cells, a - spot.start, data, k);
  }

  /** Bytes behind the first of an element, written to a cleared buffer, only wait. */
  lemma TailWaits<S>(eng: Engine<S>, s: S, spot: Spot, a: nat, data: seq<byte>)
    requires Coherent(eng) && Locate(eng, spot.start) == Some(spot)
    requires spot.start < a && data != [] && a + |data| <= spot.start + spot.item
    ensures var r := SetBytes(eng, s, CLEARED, a, data);
            r.state == s && (r.code < 0 || r.pending.address == spot.start)
  {
    SameElement(eng, spot.start, a);
    ChunkRefines(eng, s, CLEARED, a, data);
    GapStaysOpen(spot, CLEARED, a, data, 0);
  }

  lemma EarlyNeedsTwo(cells: Cells, off: nat, data: seq<byte>, item: nat)
    requires data != [] && off + |data| <= item <= 8
    requires Early(cells, off, data, item) && !Full(cells, item)
    ensures |data| > 1
  {
    var i :| 0 <= i < item && !cells[i].Some?;
    PokeAt(cells, off, data, i);
  }

  /**
    With stale bytes an element is committed before its last byte arrives: what is stored
    there is the stale byte, and the write leaves bytes behind in the buffer or fails.
   */
  lemma {:induction false} StaleByteIsCommitted<S>(eng: Engine<S>, s: S, p: Pending, spot: Spot, a: nat,
                                                   data: seq<byte>)
    returns (bytes: seq<byte>)
    requires Coherent(eng) && Locate(eng, spot.start) == Some(spot) && eng.allowed(s, spot.start)
    requires spot.start <= a && data != [] && a + |data| <= spot.start + spot.item <= spot.start + 8
    requires p.address == spot.start && !Full(p.cells, spot.item)
    requires Early(p.cells, a - spot.start, data, spot.item)
    ensures var last := a - spot.start + |data| - 1;
            |bytes| == spot.item && p.cells[last] == Some(bytes[last])
    ensures var r := SetBytes(eng, s, p, a, data);
            && r.state == eng.commit(s, spot.start, bytes).0
            && (r.code < 0 || r.pending.address == spot.start)
    decreases |data|
  {
    var off := a - spot.start;
    var next := p.cells[off := Some(data[0])];
    FirstByteInside(eng, s, p, spot, a, data);
    EarlyNeedsTwo(p.cells, off, data, spot.item);
    if Full(next, spot.item) {
      bytes := Collected(next, spot.item);
      CollectedAt(next, spot.item, off + |data| - 1);
      TailWaits(eng, eng.commit(s, spot.start, bytes).0, spot, a + 1, data[1..]);
    } else {
      assert Poke(next, off + 1, data[1..]) == Poke(p.cells, off, data);
      bytes := StaleByteIsCommitted(eng, s, Pending(spot.start, next), spot, a + 1, data[1..]);
    }
  }

  /**
    So it comes about: the second byte of an element of two bytes is written, and then both bytes,
    one by one. The first of them is stored together with the stale one.
   */
  lemma EarlyHappens<S>(eng: Engine<S>, s: S, a: nat, stale: byte, lo: byte, hi: byte)
    requires Coherent(eng) && Locate(eng, a) == Some(Spot(a, 2)) && eng.allowed(s, a)
    ensures var first := Access(eng, s, CLEARED, a + 1, [stale]);
            && first.state == s && first.code == 1 && first.pending.address == a
            && !Full(first.pending.cells, 2) && Early(first.pending.cells, 0, [lo, hi], 2)
            && SetBytes(eng, s, first.pending, a, [lo, hi]).state == eng.commit(s, a, [lo, stale]).0
  {
    SameElement(eng, a, a + 1);
    var spot, first := Spot(a, 2), Access(eng, s, CLEARED, a + 1, [stale]);
    FillWithin(spot, CLEARED, a + 1, [stale]);
    PokeAt(Aimed(CLEARED, a).cells, 1, [stale], 0);
    PokeAt(Aimed(CLEARED, a).cells, 1, [stale], 1);
    PokeAt(first.pending.cells, 0, [lo, hi], 0);
    PokeAt(first.pending.cells, 0, [lo, hi], 1);
    FirstByteInside(eng, s, first.pending, spot, a, [lo, hi]);
    var next := first.pending.cells[0 := Some(lo)];
    CollectedAt(next, 2, 0);
    CollectedAt(next, 2, 1);
    assert Collected(next, 2) == [lo, stale] && [lo, hi][1..] == [hi];
    TailWaits(eng, eng.commit(s, a, [lo, stale]).0, spot, a + 1, [hi]);
  }

  lemma FirstByteInside<S>(eng: Engine<S>, s: S, p: Pending, spot: Spot, a: nat, data: seq<byte>)
    requires Coherent(eng) && Locate(eng, spot.start) == Some(spot) && eng.allowed(s, spot.start)
    requires Around(spot, a) && data != [] && p.address == spot.start
    ensures Access(eng, s, p, a, [data[0]])
         == Deposit(eng, s, spot, Pending(spot.start, p.cells[a - spot.start := Some(data[0])]))
  {
    AccessInside(eng, s, p, spot, a, [data[0]]);
    FillWithin(spot, p, a, [data[0]]);
    assert Poke(p.cells, a - spot.start, [data[0]]) == p.cells[a - spot.start := Some(data[0])];
  }

  /**
    The exact condition: inside an element that may be written, byte-wise and one-shot
    writing agree if and only if no stale bytes complete the element early.
   */
  lemma ExactlyWhenCalm<S>(eng: Engine<S>, s: S, p: Pending, spot: Spot, a: nat, data: seq<byte>)
    requires Coherent(eng) && Locate(eng, spot.start) == Some(spot) && eng.allowed(s, spot.start)
    requires spot.start <= a && data != [] && a + |data| <= spot.start + spot.item
    requires PendingOk(eng, p)
    requires spot.item > 1 ==> forall bytes :: |bytes| == spot.item ==> eng.commit(s, spot.start, bytes).1 >= 0
    ensures SetBytes(eng, s, p, a, data) == Access(eng, s, p, a, data) <==> Calm(spot, p, a, data)
  {
    SameElement(eng, spot.start, a);
    if Calm(spot, p, a, data) {
      ChunkRefines(eng, s, p, a, data);
    } else {
      FillWithin(spot, p, a, data);
      AccessInside(eng, s, p, spot, a, data);
      var bytes := StaleByteIsCommitted(eng, s, p, spot, a, data);
    }
  }

  // ------------------------------------------------------------------ no torn elements

  /** How many of the next `n` bytes lie in elements that end among them. */
  function CompletePrefix<S>(eng: Engine<S>, a: nat, n: nat): (c: nat)
    ensures c <= n
    decreases n
  {
    if n == 0 || Locate(eng, a) == None then 0
    else
      var left := Locate(eng, a).value.start + Locate(eng, a).value.item - a;
      if n < left then 0 else left + CompletePrefix(eng, a + left, n - left)
  }

  /**
    How many bytes of a buffer write go into complete elements. With bytes pending the first
    element can be complete before its end is written.
   */
  function CompletePart<S>(eng: Engine<S>, p: Pending, a: nat, data: seq<byte>): (c: nat)
    ensures c <= |data|
  {
    if data == [] || Locate(eng, a) == None then 0
    else
      var spot := Locate(eng, a).value;
      var left := spot.start + spot.item - a;
      if |data| >= left then left + CompletePrefix(eng, a + left, |data| - left)
      else if Full(Fill(spot, p, a, data).cells, spot.item) then |data|
      else 0
  }

  /** Too few bytes to complete an element of which nothing is pending do not complete it. */
  lemma FreshCompletePart<S>(eng: Engine<S>, p: Pending, a: nat, data: seq<byte>)
    requires Coherent(eng) && FreshAt(eng, p, a)
    ensures CompletePart(eng, p, a, data) == CompletePrefix(eng, a, |data|)
  {
    if data != [] && Locate(eng, a).Some? {
      var spot := Locate(eng, a).value;
      if a + |data| < spot.start + spot.item {
        GapStaysOpen(spot, p, a, data, spot.item - 1);
      }
    }
  }

  /** Bytes of an element that do not complete it change nothing but the buffer. */
  lemma PartialElementWaits<S>(eng: Engine<S>, s: S, p: Pending, a: nat, data: seq<byte>)
    requires Coherent(eng) && Undisturbed(eng, p, a, data) && CompletePart(eng, p, a, data) == 0
    ensures SetBytes(eng, s, p, a, data).state == s
  {
    if data != [] && Locate(eng, a).Some? {
      assert Leading(eng, a, data) == data;
      ChunkRefines(eng, s, p, a, data);
    }
  }

  lemma CompletePartBehind<S>(eng: Engine<S>, p: Pending, a: nat, data: seq<byte>, spot: Spot, left: nat)
    requires data != [] && Locate(eng, a) == Some(spot) && left == spot.start + spot.item - a && |data| >= left
    ensures CompletePart(eng, p, a, data) == left + CompletePrefix(eng, a + left, |data| - left)
  {
  }

  /**
    No partly assembled element is ever visible: after any number of bytes of a buffer write
    the state is what the complete elements among them, the bytes `z`, have made it.
   */
  lemma {:induction false} NoTornElement<S>(eng: Engine<S>, s: S, p: Pending, a: nat, data: seq<byte>, z: seq<byte>)
    requires Coherent(eng) && Undisturbed(eng, p, a, data)
    requires z <= data && |z| == CompletePart(eng, p, a, data)
    ensures SetBytes(eng, s, p, a, data).state == SetElements(eng, s, p, a, z).state
    decreases |data|, 1
  {
    if z == [] {
      PartialElementWaits(eng, s, p, a, data);
    } else if z == data {
      BytewiseIsElementwise(eng, s, p, a, data);
    } else {
      NoTornLater(eng, s, p, a, data, z);
    }
  }

  lemma {:induction false} NoTornLater<S>(eng: Engine<S>, s: S, p: Pending, a: nat, data: seq<byte>, z: seq<byte>)
    requires Coherent(eng) && Undisturbed(eng, p, a, data)
    requires z != [] && z < data && |z| == CompletePart(eng, p, a, data)
    ensures SetBytes(eng, s, p, a, data).state == SetElements(eng, s, p, a, z).state
    decreases |data|, 0
  {
    var x, y, rest := SplitTorn(eng, p, a, data, z);
    var first := Access(eng, s, p, a, x);
    if first.code >= 0 {
      RestIsWhole(eng, s, p, a, x, y);
      NoTornElement(eng, first.state, first.pending, a + |x|, y, rest);
    }
    NoTornBehind(eng, s, p, a, x, y, rest);
  }

  /** Behind a complete element nothing disturbs, and only whole elements are complete. */
  lemma RestIsWhole<S>(eng: Engine<S>, s: S, p: Pending, a: nat, x: seq<byte>, y: seq<byte>)
    requires Coherent(eng) && EndsElement(eng, a, x) && Access(eng, s, p, a, x).code >= 0
    ensures var pending := Access(eng, s, p, a, x).pending;
            && Undisturbed(eng, pending, a + |x|, y)
            && CompletePart(eng, pending, a + |x|, y) == CompletePrefix(eng, a + |x|, |y|)
  {
    FreshBehind(eng, s, p, a, x);
    FreshIsUndisturbed(eng, Access(eng, s, p, a, x).pending, a + |x|, y);
    FreshCompletePart(eng, Access(eng, s, p, a, x).pending, a + |x|, y);
  }

  /** The first element, what is written behind it, and the complete elements among that. */
  lemma SplitTorn<S>(eng: Engine<S>, p: Pending, a: nat, data: seq<byte>, z: seq<byte>)
    returns (x: seq<byte>, y: seq<byte>, rest: seq<byte>)
    requires Undisturbed(eng, p, a, data) && z != [] && z < data && |z| == CompletePart(eng, p, a, data)
    ensures data == x + y && z == x + rest && rest <= y && y != [] && |y| < |data|
    ensures EndsElement(eng, a, x) && Calm(Locate(eng, a).value, p, a, x)
    ensures |rest| == CompletePrefix(eng, a + |x|, |y|)
  {
    x, y := SplitLeading(eng, a, data);
    if y != [] {
      CompletePartBehind(eng, p, a, data, Locate(eng, a).value, |x|);
    }
    rest := z[|x|..];
  }

  /** The step of that induction: both writes pass the first element alike. */
  lemma NoTornBehind<S>(eng: Engine<S>, s: S, p: Pending, a: nat, x: seq<byte>, y: seq<byte>, z: seq<byte>)
    requires Coherent(eng) && EndsElement(eng, a, x) && Calm(Locate(eng, a).value, p, a, x) && y != []
    requires var first := Access(eng, s, p, a, x);
             first.code < 0 || SetBytes(eng, first.state, first.pending, a + |x|, y).state
                               == SetElements(eng, first.state, first.pending, a + |x|, z).state
    ensures SetBytes(eng, s, p, a, x + y).state == SetElements(eng, s, p, a, x + z).state
  {
    BytesBehind(eng, s, p, a, x, y);
    if z == [] {
      assert x + z == x;
      ElementsWithin(eng, s, p, a, x);
    } else {
      ElementsBehind(eng, s, p, a, x, z);
    }
  }

  /** What the beginning of some bytes completes early, they complete early. */
  lemma EarlyPrefix(cells: Cells, off: nat, x: seq<byte>, y: seq<byte>, item: nat)
    requires x != [] && off + |x + y| <= item <= 8
    ensures Early(cells, off, x, item) ==> Early(cells, off, x + y, item)
  {
    if y == [] {
      assert x + y == x;
    } else if Early(cells, off, x, item) {
      forall k | 0 <= k < item ensures Poke(cells, off, x + y)[k].Some? {
        PokeAt(cells, off, x, k);
        PokeAt(cells, off, x + y, k);
      }
      PokeAt(cells, off, x, off + |x + y| - 1);
    }
  }

  /** What does not disturb a write does not disturb its beginning. */
  lemma CalmPrefix(spot: Spot, p: Pending, a: nat, x: seq<byte>, y: seq<byte>)
    requires Calm(spot, p, a, x + y) && x != []
    ensures Calm(spot, p, a, x)
  {
    EarlyPrefix(Aimed(p, spot.start).cells, a - spot.start, x, y, spot.item);
  }

  /**
    So it is at every moment of an undisturbed buffer write: after its first `n` bytes the state
    is the one after the complete elements among them.
   */
  lemma NeverTorn<S>(eng: Engine<S>, s: S, p: Pending, a: nat, data: seq<byte>, n: nat)
    requires Coherent(eng) && Undisturbed(eng, p, a, data) && n <= |data|
    ensures var begun := data[..n];
            SetBytes(eng, s, p, a, begun).state ==
            SetElements(eng, s, p, a, begun[..CompletePart(eng, p, a, begun)]).state
  {
    var begun := data[..n];
    if n > 0 && Locate(eng, a).Some? {
      var whole, part := Leading(eng, a, data), Leading(eng, a, begun);
      assert whole == part + whole[|part|..];
      CalmPrefix(Locate(eng, a).value, p, a, part, whole[|part|..]);
    }
    NoTornElement(eng, s, p, a, begun, begun[..CompletePart(eng, p, a, begun)]);
  }

  /** Nothing may ever be written at `a`. */
  ghost predicate Barred<S(!new)>(eng: Engine<S>, a: nat) {
    Locate(eng, a) == None || forall s :: !eng.allowed(s, Locate(eng, a).value.start)
  }

  /** A buffer write that reaches such an address stops there, with all before it done. */
  lemma StopsAtBarred<S(!new)>(eng: Engine<S>, s: S, p: Pending, a: nat, x: seq<byte>, y: seq<byte>)
    requires x != [] && y != [] && Barred(eng, a + |x|)
    ensures var before := SetBytes(eng, s, p, a, x);
            SetBytes(eng, s, p, a, x + y) ==
            if before.code < 0 then before else before.(code := -ILLEGAL_DATA_ADDRESS)
  {
    BytesAppend(eng, s, p, a, x, y);
  }

  // ------------------------------------------------------------------------ invariants

  /** Whatever every commit keeps, a buffer write keeps. */
  lemma {:induction false} BytesKeep<S(!new)>(eng: Engine<S>, inv: S -> bool, s: S, p: Pending, a: nat, data: seq<byte>)
    requires Coherent(eng) && inv(s)
    requires forall s', e, bytes :: inv(s') && eng.allowed(s', e) ==> inv(eng.commit(s', e, bytes).0)
    ensures inv(SetBytes(eng, s, p, a, data).state)
    decreases |data|
  {
    if data != [] {
      AccessKeeps(eng, inv, s, p, a, [data[0]]);
      var first := Access(eng, s, p, a, [data[0]]);
      BytesKeep(eng, inv, first.state, first.pending, a + 1, data[1..]);
    }
  }

  lemma AccessKeeps<S(!new)>(eng: Engine<S>, inv: S -> bool, s: S, p: Pending, a: nat, data: seq<byte>)
    requires Coherent(eng) && inv(s)
    requires forall s', e, bytes :: inv(s') && eng.allowed(s', e) ==> inv(eng.commit(s', e, bytes).0)
    ensures inv(Access(eng, s, p, a, data).state)
  {
  }

  /** Every access leaves the buffer in a state that can occur. */
  lemma AccessPendingOk<S>(eng: Engine<S>, s: S, p: Pending, a: nat, data: seq<byte>)
    requires Coherent(eng) && PendingOk(eng, p)
    ensures PendingOk(eng, Access(eng, s, p, a, data).pending)
  {
    if Locate(eng, a).Some? {
      SameElement(eng, a, Locate(eng, a).value.start);
    }
  }

  // ----------------------------------------------------------------------------- runs

  /** A call from a communication interface. */
  datatype Call = Set(address: nat, data: seq<byte>) | SetBuffer(address: nat, data: seq<byte>)

  function Perform<S>(eng: Engine<S>, s: S, p: Pending, c: Call): Outcome<S> {
    match c
    case Set(a, data) => Access(eng, s, p, a, data)
    case SetBuffer(a, data) => SetBytes(eng, s, p, a, data)
  }

  /** Any number of calls, one after the other. */
  function Run<S>(eng: Engine<S>, s: S, p: Pending, calls: seq<Call>): Outcome<S>
    decreases |calls|
  {
    if calls == [] then Outcome(s, p, 0)
    else
      var first := Perform(eng, s, p, calls[0]);
      Run(eng, first.state, first.pending, calls[1..])
  }

  lemma {:induction false} BytesPendingOk<S>(eng: Engine<S>, s: S, p: Pending, a: nat, data: seq<byte>)
    requires Coherent(eng) && PendingOk(eng, p)
    ensures PendingOk(eng, SetBytes(eng, s, p, a, data).pending)
    decreases |data|
  {
    if data != [] {
      AccessPendingOk(eng, s, p, a, [data[0]]);
      var first := Access(eng, s, p, a, [data[0]]);
      BytesPendingOk(eng, first.state, first.pending, a + 1, data[1..]);
    }
  }

  /** Whatever every commit keeps, every run keeps; and the buffer stays in order. */
  lemma {:induction false} RunKeeps<S(!new)>(eng: Engine<S>, inv: S -> bool, s: S, p: Pending, calls: seq<Call>)
    requires Coherent(eng) && inv(s) && PendingOk(eng, p)
    requires forall s', e, bytes :: inv(s') && eng.allowed(s', e) ==> inv(eng.commit(s', e, bytes).0)
    ensures inv(Run(eng, s, p, calls).state) && PendingOk(eng, Run(eng, s, p, calls).pending)
    decreases |calls|
  {
    if calls != [] {
      var c := calls[0];
      var first := Perform(eng, s, p, c);
      if c.Set? {
        AccessKeeps(eng, inv, s, p, c.address, c.data);
        AccessPendingOk(eng, s, p, c.address, c.data);
      } else {
        BytesKeep(eng, inv, s, p, c.address, c.data);
        BytesPendingOk(eng, s, p, c.address, c.data);
      }
      RunKeeps(eng, inv, first.state, first.pending, calls[1..]);
    }
  }

  // -------------------------------------------------------------------- whole elements

  lemma {:induction false} CollectedAt(cells: Cells, n: nat, k: nat)
    requires Full(cells, n) && k < n
    ensures cells[k] == Some(Collected(cells, n)[k])
  {
    if k < n - 1 {
      CollectedAt(cells, n - 1, k);
    }
  }

  /** All bytes of an element, written at once, are committed whatever was pending. */
  lemma WholeElementCommits<S>(eng: Engine<S>, s: S, p: Pending, spot: Spot, data: seq<byte>)
    requires Locate(eng, spot.start) == Some(spot) && eng.allowed(s, spot.start)
    requires |data| == spot.item
    ensures var done := eng.commit(s, spot.start, data);
            Access(eng, s, p, spot.start, data) == Outcome(done.0, CLEARED, done.1)
  {
    FillWithin(spot, p, spot.start, data);
    var cells := Fill(spot, p, spot.start, data).cells;
    forall k | 0 <= k < spot.item ensures cells[k] == Some(data[k]) {
      PokeAt(Aimed(p, spot.start).cells, 0, data, k);
    }
    assert Full(cells, spot.item);
    forall k | 0 <= k < spot.item ensures Collected(cells, spot.item)[k] == data[k] {
      CollectedAt(cells, spot.item, k);
    }
    assert Collected(cells, spot.item) == data;
  }

  /** The bytes at `a` are those of whole elements, and each element takes its bytes. */
  predicate WholeElements<S>(eng: Engine<S>, takes: (nat, seq<byte>) -> bool, a: nat, data: seq<byte>)
    decreases |data|
  {
    data != [] ==>
      && Locate(eng, a).Some? && Locate(eng, a).value.start == a && Locate(eng, a).value.item <= |data|
      && takes(a, data[..Locate(eng, a).value.item])
      && WholeElements(eng, takes, a + Locate(eng, a).value.item, data[Locate(eng, a).value.item..])
  }

  /** `data` with `checked` applied to the bytes of each element. */
  function MapElements<S>(eng: Engine<S>, checked: (nat, seq<byte>) -> seq<byte>, a: nat, data: seq<byte>): seq<byte>
    decreases |data|
  {
    if data == [] then []
    else
      var c := ChunkLength(eng, a, |data|);
      checked(a, data[..c]) + MapElements(eng, checked, a + c, data[c..])
  }

  /**
    What makes an engine store elements: committing bytes that an element takes succeeds, and puts its
    checked bytes where the element lies in the memory that `view` shows.
   */
  ghost predicate Stores<S(!new)>(eng: Engine<S>, ok: S -> bool, view: S -> seq<byte>,
                                  takes: (nat, seq<byte>) -> bool, checked: (nat, seq<byte>) -> seq<byte>) {
    forall s: S, e: nat, bytes: seq<byte> {:trigger eng.commit(s, e, bytes)} ::
      ok(s) && takes(e, bytes) && Locate(eng, e) == Some(Spot(e, |bytes|)) ==>
        var done := eng.commit(s, e, bytes);
        && eng.allowed(s, e) && done.1 == 1 && ok(done.0)
        && |checked(e, bytes)| == |bytes| && e + |bytes| <= |view(s)|
        && view(done.0) == Splice(view(s), e, checked(e, bytes))
  }

  /** The first of several whole elements, and the others. */
  lemma SplitWhole<S>(eng: Engine<S>, takes: (nat, seq<byte>) -> bool, checked: (nat, seq<byte>) -> seq<byte>,
                      a: nat, data: seq<byte>)
    returns (x: seq<byte>, y: seq<byte>)
    requires WholeElements(eng, takes, a, data) && data != []
    ensures data == x + y && |y| < |data| && EndsElement(eng, a, x)
    ensures takes(a, x) && Locate(eng, a) == Some(Spot(a, |x|))
    ensures WholeElements(eng, takes, a + |x|, y)
    ensures MapElements(eng, checked, a, data) == checked(a, x) + MapElements(eng, checked, a + |x|, y)
  {
    x, y := SplitLeading(eng, a, data);
  }

  /** The first of several whole elements. */
  lemma FirstElementStored<S(!new)>(eng: Engine<S>, ok: S -> bool, view: S -> seq<byte>,
                                    takes: (nat, seq<byte>) -> bool, checked: (nat, seq<byte>) -> seq<byte>,
                                    s: S, p: Pending, a: nat, data: seq<byte>)
    returns (x: seq<byte>, y: seq<byte>)
    requires Coherent(eng) && Stores(eng, ok, view, takes, checked)
    requires ok(s) && WholeElements(eng, takes, a, data) && data != []
    ensures data == x + y && EndsElement(eng, a, x) && a + |x| <= |view(s)| && |checked(a, x)| == |x|
    ensures WholeElements(eng, takes, a + |x|, y)
    ensures MapElements(eng, checked, a, data) == checked(a, x) + MapElements(eng, checked, a + |x|, y)
    ensures var first := Access(eng, s, p, a, x);
            && first.code == 1 && first.pending == CLEARED && ok(first.state)
            && view(first.state) == Splice(view(s), a, checked(a, x))
  {
    x, y := SplitWhole(eng, takes, checked, a, data);
    assert ok(s) && takes(a, x) && Locate(eng, a) == Some(Spot(a, |x|));
    assert eng.commit(s, a, x).1 == 1;
    WholeElementCommits(eng, s, p, Locate(eng, a).value, x);
  }

  /** Writing bytes that whole elements take stores all of them, checked one by one, and nothing else. */
  lemma {:induction false} ElementsStored<S(!new)>(eng: Engine<S>, ok: S -> bool, view: S -> seq<byte>,
                                                   takes: (nat, seq<byte>) -> bool,
                                                   checked: (nat, seq<byte>) -> seq<byte>, s: S, p: Pending, a: nat,
                                                   data: seq<byte>)
    requires Coherent(eng) && Stores(eng, ok, view, takes, checked)
    requires ok(s) && WholeElements(eng, takes, a, data) && data != []
    ensures |MapElements(eng, checked, a, data)| == |data| && a + |data| <= |view(s)|
    ensures var r := SetElements(eng, s, p, a, data);
            && r.code == 1 && r.pending == CLEARED && ok(r.state)
            && view(r.state) == Splice(view(s), a, MapElements(eng, checked, a, data))
    decreases |data|
  {
    var x, y := FirstElementStored(eng, ok, view, takes, checked, s, p, a, data);
    if y == [] {
      assert data == x;
      ElementsWithin(eng, s, p, a, x);
      assert MapElements(eng, checked, a, data) == checked(a, x);
    } else {
      var first := Access(eng, s, p, a, x);
      ElementsStored(eng, ok, view, takes, checked, first.state, first.pending, a + |x|, y);
      var more := MapElements(eng, checked, a + |x|, y);
      assert MapElements(eng, checked, a, data) == checked(a, x) + more;
      ElementsBehind(eng, s, p, a, x, y);
      SpliceTwice(view(s), a, checked(a, x), more);
    }
  }

  /** Byte-wise writing of bytes that whole elements take, which runs into a barred address. */
  lemma StoredUpToBarred<S(!new)>(eng: Engine<S>, ok: S -> bool, view: S -> seq<byte>,
                                  takes: (nat, seq<byte>) -> bool, checked: (nat, seq<byte>) -> seq<byte>,
                                  s: S, p: Pending, a: nat, x: seq<byte>, y: seq<byte>)
    requires Coherent(eng) && Stores(eng, ok, view, takes, checked)
    requires ok(s) && WholeElements(eng, takes, a, x) && x != [] && y != []
    requires Undisturbed(eng, p, a, x) && Barred(eng, a + |x|)
    ensures |MapElements(eng, checked, a, x)| == |x| && a + |x| <= |view(s)|
    ensures var r := SetBytes(eng, s, p, a, x + y);
            && r.code == -ILLEGAL_DATA_ADDRESS && r.pending == CLEARED && ok(r.state)
            && view(r.state) == Splice(view(s), a, MapElements(eng, checked, a, x))
  {
    BytewiseIsElementwise(eng, s, p, a, x);
    ElementsStored(eng, ok, view, takes, checked, s, p, a, x);
    StopsAtBarred(eng, s, p, a, x, y);
  }

  /** A commit of `z` at `e` fails with `code` and leaves what `view` shows alone. */
  ghost predicate Rejects<S(!new)>(eng: Engine<S>, ok: S -> bool, view: S -> seq<byte>, e: nat, z: seq<byte>,
                                   code: int)
  {
    forall s: S {:trigger eng.commit(s, e, z)} ::
      ok(s) ==>
        && eng.allowed(s, e) && e <= |view(s)|
        && eng.commit(s, e, z).1 == code && view(eng.commit(s, e, z).0) == view(s)
  }

  lemma RejectedAtOnce<S(!new)>(eng: Engine<S>, ok: S -> bool, view: S -> seq<byte>, s: S, p: Pending, a: nat,
                                z: seq<byte>, code: int)
    requires Coherent(eng) && ok(s)
    requires Locate(eng, a) == Some(Spot(a, |z|)) && Rejects(eng, ok, view, a, z, code)
    ensures a <= |view(s)|
    ensures var r := SetElements(eng, s, p, a, z);
            r.code == code && r.pending == CLEARED && view(r.state) == view(s)
  {
    assert eng.commit(s, a, z).1 == code;
    ElementsWithin(eng, s, p, a, z);
    WholeElementCommits(eng, s, p, Spot(a, |z|), z);
  }

  /** Writing goes on with `z` at `e` behind `x`, unless `x` fails. */
  predicate GoesOn<S(==)>(eng: Engine<S>, s: S, p: Pending, a: nat, x: seq<byte>, e: nat, z: seq<byte>) {
    var before := SetElements(eng, s, p, a, x);
    SetElements(eng, s, p, a, x + z) ==
    if before.code < 0 then before else SetElements(eng, before.state, before.pending, e, z)
  }

  lemma ElementsGoOn<S>(eng: Engine<S>, s: S, p: Pending, a: nat, first: seq<byte>, rest: seq<byte>, x: seq<byte>,
                        e: nat, z: seq<byte>)
    requires EndsElement(eng, a, first) && rest != [] && z != [] && x == first + rest
    requires var done := Access(eng, s, p, a, first);
             done.code < 0 || GoesOn(eng, done.state, done.pending, a + |first|, rest, e, z)
    ensures GoesOn(eng, s, p, a, x, e, z)
  {
    ElementsBehind(eng, s, p, a, first, rest);
    ElementsBehind(eng, s, p, a, first, rest + z);
    assert x + z == first + (rest + z);
  }

  lemma FirstWhole<S>(eng: Engine<S>, takes: (nat, seq<byte>) -> bool, a: nat, data: seq<byte>)
    returns (x: seq<byte>, y: seq<byte>)
    requires WholeElements(eng, takes, a, data) && data != []
    ensures data == x + y && |y| < |data| && EndsElement(eng, a, x) && ChunkLength(eng, a, |x|) == |x|
    ensures WholeElements(eng, takes, a + |x|, y)
  {
    x, y := SplitLeading(eng, a, data);
  }

  /** Behind whole elements writing goes on as a write of its own. */
  lemma {:induction false} ElementsAppend<S>(eng: Engine<S>, takes: (nat, seq<byte>) -> bool, s: S, p: Pending, a: nat,
                                             x: seq<byte>, e: nat, z: seq<byte>)
    requires WholeElements(eng, takes, a, x) && x != [] && z != [] && e == a + |x|
    ensures GoesOn(eng, s, p, a, x, e, z)
    decreases |x|
  {
    var first, rest := FirstWhole(eng, takes, a, x);
    if rest == [] {
      assert x == first;
      ElementsWithin(eng, s, p, a, x);
      ElementsBehind(eng, s, p, a, x, z);
    } else {
      var done := Access(eng, s, p, a, first);
      ElementsAppend(eng, takes, done.state, done.pending, a + |first|, rest, e, z);
      ElementsGoOn(eng, s, p, a, first, rest, x, e, z);
    }
  }

  lemma ElementsUpToRejected<S(!new)>(eng: Engine<S>, ok: S -> bool, view: S -> seq<byte>,
                                      takes: (nat, seq<byte>) -> bool, checked: (nat, seq<byte>) -> seq<byte>,
                                      s: S, p: Pending, a: nat, x: seq<byte>, e: nat, z: seq<byte>, code: int)
    requires Coherent(eng) && Stores(eng, ok, view, takes, checked)
    requires ok(s) && WholeElements(eng, takes, a, x) && e == a + |x|
    requires Locate(eng, e) == Some(Spot(e, |z|)) && Rejects(eng, ok, view, e, z, code)
    ensures |MapElements(eng, checked, a, x)| == |x| && e <= |view(s)|
    ensures var r := SetElements(eng, s, p, a, x + z);
            && r.code == code && r.pending == CLEARED
            && view(r.state) == Splice(view(s), a, MapElements(eng, checked, a, x))
  {
    if x == [] {
      assert x + z == z;
      RejectedAtOnce(eng, ok, view, s, p, a, z, code);
    } else {
      ElementsStored(eng, ok, view, takes, checked, s, p, a, x);
      ElementsAppend(eng, takes, s, p, a, x, e, z);
      var before := SetElements(eng, s, p, a, x);
      RejectedAtOnce(eng, ok, view, before.state, before.pending, e, z, code);
    }
  }

  /** Byte-wise writing that comes, at `e`, to bytes which their element does not take: it stops behind them. */
  lemma StoredUpToRejected<S(!new)>(eng: Engine<S>, ok: S -> bool, view: S -> seq<byte>,
                                    takes: (nat, seq<byte>) -> bool, checked: (nat, seq<byte>) -> seq<byte>,
                                    s: S, p: Pending, a: nat, x: seq<byte>, e: nat, z: seq<byte>, rest: seq<byte>,
                                    code: int)
    requires Coherent(eng) && Stores(eng, ok, view, takes, checked)
    requires ok(s) && WholeElements(eng, takes, a, x) && Undisturbed(eng, p, a, x + z) && e == a + |x|
    requires Locate(eng, e) == Some(Spot(e, |z|)) && Rejects(eng, ok, view, e, z, code) && code < 0
    ensures |MapElements(eng, checked, a, x)| == |x| && e <= |view(s)|
    ensures var r := SetBytes(eng, s, p, a, x + z + rest);
            && r.code == code && r.pending == CLEARED
            && view(r.state) == Splice(view(s), a, MapElements(eng, checked, a, x))
  {
    BytewiseIsElementwise(eng, s, p, a, x + z);
    ElementsUpToRejected(eng, ok, view, takes, checked, s, p, a, x, e, z, code);
    if rest == [] {
      assert x + z + rest == x + z;
    } else {
      BytesAppend(eng, s, p, a, x + z, rest);
    }
  }

  /** What an element takes is stored as it is. */
  ghost predicate KeepsBytes<S>(eng: Engine<S>, takes: (nat, seq<byte>) -> bool,
                                checked: (nat, seq<byte>) -> seq<byte>)
  {
    forall e, bytes :: takes(e, bytes) && Locate(eng, e) == Some(Spot(e, |bytes|)) ==> checked(e, bytes) == bytes
  }

  /** Where every element is stored as it is, so is the whole buffer. */
  lemma {:induction false} MapElementsSame<S>(eng: Engine<S>, takes: (nat, seq<byte>) -> bool,
                                              checked: (nat, seq<byte>) -> seq<byte>,
                                              a: nat, data: seq<byte>)
    requires WholeElements(eng, takes, a, data) && KeepsBytes(eng, takes, checked)
    ensures MapElements(eng, checked, a, data) == data
    decreases |data|
  {
    if data != [] {
      var x, y := SplitWhole(eng, takes, checked, a, data);
      MapElementsSame(eng, takes, checked, a + |x|, y);
      assert checked(a, x) == x && MapElements(eng, checked, a + |x|, y) == y;
      assert MapElements(eng, checked, a, data) == x + y;
    }
  }
}
