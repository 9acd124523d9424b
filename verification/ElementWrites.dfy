/**
  Writes to one element (main/regs.c:104-137, 386-437, 460-517), by the numbers: how many bytes must
  arrive before anything is stored, which bytes are stored then, and what its bounds make of them.
 */
module ElementWrites {
  import opened Bits
  import opened Memory
  import opened Registers
  import opened Kinds
  import opened Lookup
  import opened PendingBuffer
  import opened WritePath
  import opened WriteLaws
  import opened WriteTheorems

  /** `e` is the address of element `q` of register (`t`, `i`), whose elements take `n` bytes each. */
  predicate IsElement(cfg: Config, t: nat, i: nat, q: nat, n: nat, e: nat) {
    && IsReg(cfg, t, i) && q < Reg(cfg, t, i).size
    && n == Width(Reg(cfg, t, i).kind) && e == Reg(cfg, t, i).address + q * n
  }

  /** Nothing of the element at `e` is pending. */
  predicate NothingPending(p: Pending, e: nat) {
    p.address != e
  }

  lemma ElementPlace(d: Register, q: nat, n: nat, e: nat)
    requires q < d.size && n == Width(d.kind) && e == d.address + q * n
    ensures d.Item() == n && d.Holds(e) && e + n <= d.End()
    ensures ElementStart(d, e) == e && ElementIndex(d, e) == q
  {
    WidthIsSize(d.kind, q);
    ScaleMonotone(q, d.size, d.kind);
    DivisionIsUnique(q, 0, d.kind);
  }

  lemma ElementSpot(cfg: Config, memSize: nat, t: nat, i: nat, q: nat, n: nat, e: nat)
    requires ConfigOk(cfg, memSize) && IsElement(cfg, t, i, q, n, e)
    ensures var d := Reg(cfg, t, i);
            && d.Ok() && d.Item() == n && d.Holds(e) && e + n <= d.End() <= memSize
            && ElementStart(d, e) == e && ElementIndex(d, e) == q
            && FindAddress(cfg.tables, e) == At(t, i) && Locate(EngineOf(cfg), e) == Some(Spot(e, n))
  {
    ElementPlace(Reg(cfg, t, i), q, n, e);
    RegOk(cfg, memSize, t, i);
    LocateAt(cfg, memSize, t, i, e);
  }

  lemma FewerBytesWait<S>(eng: Engine<S>, s: S, p: Pending, spot: Spot, a: nat, data: seq<byte>)
    requires Coherent(eng) && Locate(eng, spot.start) == Some(spot) && NothingPending(p, spot.start)
    requires spot.start <= a && a + |data| <= spot.start + spot.item && 0 < |data| < spot.item
    ensures SetBytes(eng, s, p, a, data).state == s
  {
    SameElement(eng, spot.start, a);
    FreshIsUndisturbed(eng, p, a, data);
    assert Leading(eng, a, data) == data;
    ChunkRefines(eng, s, p, a, data);
    GapStaysOpen(spot, p, a, data, if a == spot.start then spot.item - 1 else 0);
  }

  /**
    Fewer bytes than an element has, in whatever place of it, change nothing that is stored: not
    the memory, not the mirrors, not the requests for saving.
   */
  lemma TooFewBytesWait(cfg: Config, s: Store, p: Pending, t: nat, i: nat, q: nat, n: nat, e: nat, a: nat,
                        data: seq<byte>)
    requires StoreOk(cfg, s) && IsElement(cfg, t, i, q, n, e) && NothingPending(p, e)
    requires e <= a && a + |data| <= e + n && |data| < n
    ensures SetBytes(EngineOf(cfg), s, p, a, data).state == s
  {
    if data != [] {
      ElementSpot(cfg, |s.mem|, t, i, q, n, e);
      EngineCoherent(cfg, |s.mem|);
      FewerBytesWait(EngineOf(cfg), s, p, Spot(e, n), a, data);
    }
  }

  /** Register (`t`, `i`) may always be written and is not one of the text registers. */
  predicate IsPlain(cfg: Config, t: nat, i: nat)
    requires IsReg(cfg, t, i)
  {
    !Reg(cfg, t, i).readOnly && Reg(cfg, t, i).address !in cfg.textAddresses
  }

  lemma OneWholeElement(cfg: Config, memSize: nat, takes: (nat, seq<byte>) -> bool, t: nat, i: nat, q: nat, n: nat,
                        e: nat, data: seq<byte>)
    requires ConfigOk(cfg, memSize) && IsElement(cfg, t, i, q, n, e) && |data| == n && takes(e, data)
    ensures WholeElements(EngineOf(cfg), takes, e, data)
  {
    ElementSpot(cfg, memSize, t, i, q, n, e);
    assert data[..n] == data;
  }

  /** With its last byte an element without bounds is stored, all bytes of it, and nothing else is. */
  lemma AllBytesAreStored(cfg: Config, s: Store, p: Pending, t: nat, i: nat, q: nat, n: nat, e: nat, data: seq<byte>)
    requires StoreOk(cfg, s) && IsElement(cfg, t, i, q, n, e) && NothingPending(p, e) && |data| == n
    requires IsPlain(cfg, t, i) && Reg(cfg, t, i).minValue == Reg(cfg, t, i).maxValue == None
    ensures e + n <= |s.mem|
    ensures var r := SetBytes(EngineOf(cfg), s, p, e, data);
            r.code == 1 && r.pending == CLEARED && r.state.mem == s.mem[..e] + data + s.mem[e + n..]
  {
    ElementSpot(cfg, |s.mem|, t, i, q, n, e);
    EngineCoherent(cfg, |s.mem|);
    UnboundedClamp(cfg, e, data);
    FreshIsUndisturbed(EngineOf(cfg), p, e, data);
    OneWholeElement(cfg, |s.mem|, TakingUnbounded(cfg, false), t, i, q, n, e, data);
    UnboundedBufferStored(cfg, false, s, p, e, data);
    SpliceParts(s.mem, e, data);
  }

  // ------------------------------------------------------------------------------ bounds

  /** What an array of bounds says of element `q`, if there is one. */
  predicate BoundIs(d: Register, bounds: Option<seq<byte>>, q: nat, b: Option<int>) {
    match bounds
    case None => b == None
    case Some(all) =>
      var n := Width(d.kind);
      && SizeInByte(d.kind) == n && q * n + n <= |all|
      && b == Some(Decode(d.kind, all[q * n..q * n + n]))
  }

  lemma BoundIsBound(d: Register, bounds: Option<seq<byte>>, q: nat, b: Option<int>)
    requires d.BoundsOk(bounds) && q < d.size && BoundIs(d, bounds, q, b)
    ensures Bound(d, bounds, q) == b
  {
    WidthIsSize(d.kind, q);
    ScaleMonotone(q, d.size, d.kind);
  }

  /**
    `v` is stored for `written`: the value itself between the bounds, else the bound that it violates.
    A minimum above the maximum wins.
   */
  predicate Bounded(written: int, low: Option<int>, high: Option<int>, v: int) {
    && ((low.Some? ==> low.value <= written) && (high.Some? ==> written <= high.value) ==> v == written)
    && (low.Some? && written < low.value && (high.Some? ==> low.value <= high.value) ==> v == low.value)
    && (high.Some? && high.value < written && (low.Some? ==> low.value <= high.value) ==> v == high.value)
    && (low.Some? && high.Some? && high.value < low.value ==> v == low.value)
  }

  /** A whole element takes its bytes, clamped. */
  lemma ClampedIsStored(cfg: Config, s: Store, p: Pending, t: nat, i: nat, q: nat, n: nat, e: nat, data: seq<byte>)
    requires StoreOk(cfg, s) && IsElement(cfg, t, i, q, n, e) && NothingPending(p, e) && |data| == n
    requires IsPlain(cfg, t, i)
    ensures e + n <= |s.mem| && |ClampAt(cfg, e, data)| == n
    ensures var r := SetBytes(EngineOf(cfg), s, p, e, data);
            r.code == 1 && r.state.mem == Splice(s.mem, e, ClampAt(cfg, e, data))
  {
    ElementSpot(cfg, |s.mem|, t, i, q, n, e);
    EngineCoherent(cfg, |s.mem|);
    ClampAtValue(cfg, |s.mem|, t, i, e, data);
    FreshIsUndisturbed(EngineOf(cfg), p, e, data);
    OneWholeElement(cfg, |s.mem|, Taking(cfg, false), t, i, q, n, e, data);
    BufferStored(cfg, false, s, p, e, data);
    OneElementMapped(cfg, |s.mem|, t, i, q, n, e, data);
  }

  lemma ClampedIsBounded(cfg: Config, memSize: nat, t: nat, i: nat, q: nat, n: nat, e: nat, data: seq<byte>,
                         low: Option<int>, high: Option<int>)
    requires ConfigOk(cfg, memSize) && IsElement(cfg, t, i, q, n, e) && |data| == n
    requires BoundIs(Reg(cfg, t, i), Reg(cfg, t, i).minValue, q, low)
    requires BoundIs(Reg(cfg, t, i), Reg(cfg, t, i).maxValue, q, high)
    ensures SizeInByte(Reg(cfg, t, i).kind) == n && |ClampAt(cfg, e, data)| == n
    ensures var k := Reg(cfg, t, i).kind; Bounded(Decode(k, data), low, high, Decode(k, ClampAt(cfg, e, data)))
  {
    var d := Reg(cfg, t, i);
    ElementSpot(cfg, memSize, t, i, q, n, e);
    BoundIsBound(d, d.minValue, q, low);
    BoundIsBound(d, d.maxValue, q, high);
    ClampAtValue(cfg, memSize, t, i, e, data);
  }

  lemma SplicedParts(m: seq<byte>, e: nat, x: seq<byte>, n: nat)
    requires e + n <= |m| && |x| == n
    ensures var r := Splice(m, e, x); r[..e] == m[..e] && r[e..e + n] == x && r[e + n..] == m[e + n..]
  {
    SpliceParts(m, e, x);
  }

  /**
    What becomes of a whole element of an integer register: its value, or the minimum or maximum of
    that very element, is stored in its place, and nothing else in memory changes.
   */
  lemma BoundedValueIsStored(cfg: Config, s: Store, p: Pending, t: nat, i: nat, q: nat, n: nat, e: nat,
                             data: seq<byte>, low: Option<int>, high: Option<int>)
    requires StoreOk(cfg, s) && IsElement(cfg, t, i, q, n, e) && NothingPending(p, e) && |data| == n
    requires IsPlain(cfg, t, i) && BoundIs(Reg(cfg, t, i), Reg(cfg, t, i).minValue, q, low)
    requires BoundIs(Reg(cfg, t, i), Reg(cfg, t, i).maxValue, q, high)
    ensures e + n <= |s.mem| && SizeInByte(Reg(cfg, t, i).kind) == n
    ensures var r, k := SetBytes(EngineOf(cfg), s, p, e, data), Reg(cfg, t, i).kind;
            && r.code == 1 && |r.state.mem| == |s.mem|
            && r.state.mem[..e] == s.mem[..e] && r.state.mem[e + n..] == s.mem[e + n..]
            && Bounded(Decode(k, data), low, high, Decode(k, r.state.mem[e..e + n]))
  {
    ClampedIsStored(cfg, s, p, t, i, q, n, e, data);
    ClampedIsBounded(cfg, |s.mem|, t, i, q, n, e, data, low, high);
    SplicedParts(s.mem, e, ClampAt(cfg, e, data), n);
  }

  lemma OneElementMapped(cfg: Config, memSize: nat, t: nat, i: nat, q: nat, n: nat, e: nat, data: seq<byte>)
    requires ConfigOk(cfg, memSize) && IsElement(cfg, t, i, q, n, e) && |data| == n
    ensures MapElements(EngineOf(cfg), Clamping(cfg), e, data) == ClampAt(cfg, e, data)
  {
    ElementSpot(cfg, memSize, t, i, q, n, e);
    assert data[..n] == data;
    assert MapElements(EngineOf(cfg), Clamping(cfg), e + n, data[n..]) == [];
  }

  // ------------------------------------------------------------------- who may write what

  /**
    A write of one byte is refused exactly when its address belongs to no register or to one that is
    read-only and not a credential that may be written now; a refused write changes nothing.
   */
  lemma RefusedExactly(cfg: Config, s: Store, p: Pending, t: nat, i: nat, a: nat, b: byte)
    requires StoreOk(cfg, s) && IsReg(cfg, t, i) && Reg(cfg, t, i).Holds(a)
    ensures var d, r := Reg(cfg, t, i), SetBytes(EngineOf(cfg), s, p, a, [b]);
            if d.readOnly && !(d.credential && s.credentialEnabled) then r == Outcome(s, p, -2)
            else r.code == 1 || r.code == -3
  {
    var d, eng := Reg(cfg, t, i), EngineOf(cfg);
    LocateAt(cfg, |s.mem|, t, i, a);
    assert AllowedAt(cfg, s, ElementStart(d, a)) <==> Writable(s, d);
    if Writable(s, d) {
      var filled := Fill(Spot(ElementStart(d, a), d.Item()), p, a, [b]);
      if Full(filled.cells, d.Item()) {
        CommitAtElement(cfg, s, ElementStart(d, a), Collected(filled.cells, d.Item()));
      }
    }
  }

  lemma NowhereIsRefused(cfg: Config, s: Store, p: Pending, a: nat, b: byte)
    requires forall t, i :: 0 <= t < |cfg.tables| && 0 <= i < |cfg.tables[t].regs| ==> !cfg.tables[t].regs[i].Holds(a)
    ensures SetBytes(EngineOf(cfg), s, p, a, [b]) == Outcome(s, p, -2)
  {
    LocateNowhere(cfg, a);
  }

  /** What a whole element that may be written makes of its bytes is one commit. */
  lemma ElementCommits(cfg: Config, s: Store, p: Pending, t: nat, i: nat, q: nat, n: nat, e: nat, data: seq<byte>)
    requires StoreOk(cfg, s) && IsElement(cfg, t, i, q, n, e) && NothingPending(p, e) && |data| == n
    requires !Reg(cfg, t, i).readOnly
    ensures var d := Reg(cfg, t, i);
            && d.Holds(e) && ElementStart(d, e) == e && d.Item() == n
            && SetBytes(EngineOf(cfg), s, p, e, data).state == Commit(cfg, s, t, i, e, data).0
  {
    var eng := EngineOf(cfg);
    ElementSpot(cfg, |s.mem|, t, i, q, n, e);
    EngineCoherent(cfg, |s.mem|);
    FreshIsUndisturbed(eng, p, e, data);
    assert Leading(eng, e, data) == data;
    ChunkRefines(eng, s, p, e, data);
    assert AllowedAt(cfg, s, e);
    WholeElementCommits(eng, s, p, Spot(e, n), data);
    CommitAtElement(cfg, s, e, data);
  }

  /** The command that lies in memory is run. */
  lemma CommandRuns(cfg: Config, s: Store, t: nat, i: nat, lo: byte, hi: byte)
    requires StoreOk(cfg, s) && IsReg(cfg, t, i) && IsCommand(cfg, Reg(cfg, t, i))
    requires Slice(s.mem, cfg.commandAddress, 2) == [lo, hi]
    ensures |s.mirrors[t]| >= 4 && Reg(cfg, t, i).End() <= |s.mem|
    ensures HandleSets(cfg, s, t, Reg(cfg, t, i)).credentialEnabled ==
            ((lo == 0xff && hi == 0x53) || (!(lo == 0 && hi == 0x54) && s.credentialEnabled))
  {
    MirrorWriteFrame(cfg, s, t, i);
    ValueIsUnsigned([lo, hi]);
  }

  /**
    The commands that decide who may write credentials: 0x53ff in the command register allows it,
    0x5400 ends it, and any other value leaves it as it is.
   */
  lemma CommandSwitches(cfg: Config, s: Store, p: Pending, t: nat, i: nat, lo: byte, hi: byte)
    requires StoreOk(cfg, s) && IsElement(cfg, t, i, 0, 2, cfg.commandAddress) && NothingPending(p, cfg.commandAddress)
    requires IsPlain(cfg, t, i) && Reg(cfg, t, i).minValue == Reg(cfg, t, i).maxValue == None
    ensures SetBytes(EngineOf(cfg), s, p, cfg.commandAddress, [lo, hi]).state.credentialEnabled ==
            ((lo == 0xff && hi == 0x53) || (!(lo == 0 && hi == 0x54) && s.credentialEnabled))
  {
    var e, data := cfg.commandAddress, [lo, hi];
    ElementSpot(cfg, |s.mem|, t, i, 0, 2, e);
    ElementCommits(cfg, s, p, t, i, 0, 2, e, data);
    CommitMemory(cfg, s, t, i, e, data);
    EncodeDecode(Reg(cfg, t, i).kind, data);
    SliceOfSplice(s.mem, e, data);
    CommandRuns(cfg, s.(mem := Splice(s.mem, e, data)), t, i, lo, hi);
  }

  /** A copy inside a slice that leaves the slice as it was leaves everything as it was. */
  lemma ChangeShows(m: seq<byte>, at: nat, x: seq<byte>, p: nat, n: nat)
    requires p <= at && at + |x| <= p + n <= |m|
    ensures Slice(Splice(m, at, x), p, n) == Slice(m, p, n) <==> Splice(m, at, x) == m
  {
    if Slice(Splice(m, at, x), p, n) == Slice(m, p, n) {
      forall k | 0 <= k < |m| ensures Splice(m, at, x)[k] == m[k] {
        SpliceAt(m, at, x, k);
        if p <= k < p + n {
          assert Slice(Splice(m, at, x), p, n)[k - p] == Slice(m, p, n)[k - p];
        }
      }
    }
  }

  /** A save has been asked for, if `asked`; otherwise mirrors and requests are as they were. */
  predicate Asked(s: Store, r: Store, t: nat, asked: bool) {
    if asked then r.tableToSave == s.tableToSave + {t} && r.saveRequested
    else r.tableToSave == s.tableToSave && r.saveRequested == s.saveRequested && r.mirrors == s.mirrors
  }

  /** What the mirror makes of a register that agreed with its slot before memory became what it is. */
  lemma MirrorAsksExactly(cfg: Config, s: Store, now: Store, t: nat, i: nat)
    requires StoreOk(cfg, s) && StoreOk(cfg, now) && MirrorsAgree(cfg, s) && IsReg(cfg, t, i)
    requires now == s.(mem := now.mem) && |now.mem| == |s.mem|
    requires Reg(cfg, t, i).End() <= |s.mem|
    requires Current(now.mem, Reg(cfg, t, i)) == Current(s.mem, Reg(cfg, t, i)) <==> now.mem == s.mem
    ensures |now.mirrors[t]| >= 4
    ensures Asked(s, MirrorWrite(cfg, now, t, Reg(cfg, t, i)), t, Reg(cfg, t, i).saving && now.mem != s.mem)
  {
    RegOk(cfg, |s.mem|, t, i);
    assert AgreesAt(cfg, s, t, i);
  }

  /** The command leaves the requests alone. */
  lemma SetsAskAsMirror(cfg: Config, s: Store, now: Store, t: nat, i: nat, asked: bool)
    requires StoreOk(cfg, now) && IsReg(cfg, t, i) && |now.mirrors[t]| >= 4 && Reg(cfg, t, i).End() <= |now.mem|
    requires Asked(s, MirrorWrite(cfg, now, t, Reg(cfg, t, i)), t, asked)
    ensures Asked(s, HandleSets(cfg, now, t, Reg(cfg, t, i)), t, asked)
    ensures HandleSets(cfg, now, t, Reg(cfg, t, i)).mem == now.mem
  {
    HandleSetsFrame(cfg, now, t, i);
  }

  /**
    A save is asked for exactly when a write changes a saved register: a whole element of one, in a
    device whose slots agree with memory, asks for its table if memory has changed; otherwise
    mirrors and requests stay as they are.
   */
  lemma SaveRequestedExactly(cfg: Config, s: Store, p: Pending, t: nat, i: nat, q: nat, n: nat, e: nat, data: seq<byte>)
    requires StoreOk(cfg, s) && MirrorsAgree(cfg, s) && IsElement(cfg, t, i, q, n, e) && NothingPending(p, e)
    requires |data| == n && !Reg(cfg, t, i).readOnly
    ensures var r := SetBytes(EngineOf(cfg), s, p, e, data).state;
            if Reg(cfg, t, i).saving && r.mem != s.mem then
              r.tableToSave == s.tableToSave + {t} && r.saveRequested
            else r.tableToSave == s.tableToSave && r.saveRequested == s.saveRequested && r.mirrors == s.mirrors
  {
    var d := Reg(cfg, t, i);
    ElementCommits(cfg, s, p, t, i, q, n, e, data);
    CommitMemory(cfg, s, t, i, e, data);
    ElementInside(d, e);
    var checked := ClampBytes(d, ElementIndex(d, e), data);
    var now := if Accepted(cfg, d, checked) then s.(mem := Splice(s.mem, e, checked)) else s;
    ChangeShows(s.mem, e, checked, d.address, d.Bytes());
    MirrorAsksExactly(cfg, s, now, t, i);
    SetsAskAsMirror(cfg, s, now, t, i, d.saving && now.mem != s.mem);
  }
}
