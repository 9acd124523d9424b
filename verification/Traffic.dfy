/**
  Whatever a Modbus master sends: every packet is at most one call of the write path or a write of
  coils, so that what calls and coil writes keep is kept by any traffic.
 */
module Traffic {
  import opened Bits
  import opened Memory
  import opened Registers
  import opened Lookup
  import opened PendingBuffer
  import opened WritePath
  import opened WriteLaws
  import opened WriteTheorems
  import opened Modbus
  import opened EndToEnd

  /** What one packet does to the registers. */
  datatype Deed = Calls(calls: seq<Call>) | PutCoils(word: nat, data: seq<byte>)

  function Effect<S>(port: Port<S>, s: S, deed: Deed): S
    requires deed.PutCoils? ==> port.find(deed.word, MDB_COILS_RW).Some?
  {
    match deed
    case PutCoils(word, data) => port.setCoils(s, port.find(word, MDB_COILS_RW).value, data)
    case Calls(calls) =>
      if calls == [] then s
      else
        match calls[0]
        case Set(a, data) => port.setValue(s, a, data).0
        case SetBuffer(a, data) => port.setBuffer(s, a, data).0
  }

  /** A packet is at most one call, or a write of coils that are described. */
  lemma PacketIsCall<S>(port: Port<S>, s: S, buf: seq<byte>) returns (deed: Deed)
    requires |buf| >= BUFFER
    ensures deed.Calls? ==> |deed.calls| <= 1
    ensures deed.PutCoils? ==> port.find(deed.word, MDB_COILS_RW).Some? && (buf[1] == 5 || buf[1] == 15)
    ensures Served(port, s, buf).0 == Effect(port, s, deed)
  {
    deed := Calls([]);
    var start: nat, n := WordAt(buf, 2), WordAt(buf, 4);
    var p, coil := port.find(start, MDB_HOLDING_REGS_RW), port.find(start, MDB_COILS_RW);
    if buf[1] == 6 && p.Some? {
      deed := Calls([Set(p.value, [buf[5], buf[4]])]);
    } else if buf[1] == 16 && p.Some? && 1 <= n <= MODBUS_MAX_MODBUS_REGS_NUM {
      deed := Calls([SetBuffer(p.value, Swapped(buf[7..7 + 2 * n]))]);
    } else if buf[1] == 5 && coil.Some? && n in {0, 0xff00} {
      deed := PutCoils(start, [if n == 0 then 0 else 1]);
    } else if buf[1] == 15 && WriteCoils(port, s, buf).1.Fine? {
      deed := PutCoils(start, buf[7..7 + (n + 7) / 8]);
    }
  }

  /** The session is in order, and protected bytes are what they were in `start`. */
  predicate SafeSession(cfg: Config, start: seq<byte>, s: Session) {
    Safe(cfg, start, s.store) && PendingOk(EngineOf(cfg), s.pending)
  }

  /** Byte `a` belongs to a register that is neither saved nor bounded nor protected. */
  predicate IsFree(cfg: Config, a: nat) {
    var p := FindAddress(cfg.tables, a);
    && p.At? && !Protected(cfg, a)
    && var d := cfg.tables[p.table].regs[p.index]; !d.saving && d.minValue == None && d.maxValue == None
  }

  /** Memory differs in bytes of such registers only. */
  predicate FreeBytesDiffer(cfg: Config, before: seq<byte>, after: seq<byte>) {
    |after| == |before| && forall a :: 0 <= a < |before| && after[a] != before[a] ==> IsFree(cfg, a)
  }

  /**
    Coils are copied to memory past all checks (main/modbus.c:284-303, 345-372), so they must be
    described where nothing is saved, bounded or protected. No generated table describes any.
   */
  ghost predicate CoilsAreHarmless(cfg: Config, port: Port<Session>) {
    forall s: Session, word: nat, data: seq<byte> ::
      port.find(word, MDB_COILS_RW).Some? ==>
        var r := port.setCoils(s, port.find(word, MDB_COILS_RW).value, data);
        r == s.(store := s.store.(mem := r.store.mem)) && FreeBytesDiffer(cfg, s.store.mem, r.store.mem)
  }

  lemma NoCoilsAreHarmless(cfg: Config, port: Port<Session>)
    requires forall word: nat :: port.find(word, MDB_COILS_RW) == None
    ensures CoilsAreHarmless(cfg, port)
  {
  }

  /** A register that is saved or bounded keeps its bytes. */
  lemma RegisterKeeps(cfg: Config, before: seq<byte>, after: seq<byte>, t: nat, i: nat)
    requires ConfigOk(cfg, |before|) && IsReg(cfg, t, i) && FreeBytesDiffer(cfg, before, after)
    requires var d := Reg(cfg, t, i); d.saving || d.minValue != None || d.maxValue != None
    ensures var d := Reg(cfg, t, i);
            d.End() <= |before| && Current(after, d) == Current(before, d)
  {
    RegOk(cfg, |before|, t, i);
    var d := Reg(cfg, t, i);
    forall a | d.address <= a < d.End() ensures after[a] == before[a] {
      FindAddressUnique(cfg, |before|, t, i, a);
    }
  }

  /** An element of a register whose bytes are the same is the same. */
  lemma ElementKeeps(cfg: Config, before: seq<byte>, after: seq<byte>, t: nat, i: nat, index: nat)
    requires ConfigOk(cfg, |before|) && IsReg(cfg, t, i) && index < Reg(cfg, t, i).size
    requires FreeBytesDiffer(cfg, before, after) && InBoundsAt(cfg, before, t, i, index)
    ensures InBoundsAt(cfg, after, t, i, index)
  {
    var d := Reg(cfg, t, i);
    RegOk(cfg, |before|, t, i);
    if d.minValue != None || d.maxValue != None {
      RegisterKeeps(cfg, before, after, t, i);
    }
  }

  lemma FreeBytesAreSafe(cfg: Config, start: seq<byte>, s: Store, mem: seq<byte>)
    requires Safe(cfg, start, s) && FreeBytesDiffer(cfg, s.mem, mem)
    ensures Safe(cfg, start, s.(mem := mem))
  {
    var r := s.(mem := mem);
    forall t, i | 0 <= t < |cfg.tables| && 0 <= i < |cfg.tables[t].regs| ensures AgreesAt(cfg, r, t, i) {
      assert AgreesAt(cfg, s, t, i);
      if Reg(cfg, t, i).saving {
        RegisterKeeps(cfg, s.mem, mem, t, i);
      }
    }
    forall t, i, index | 0 <= t < |cfg.tables| && 0 <= i < |cfg.tables[t].regs| && 0 <= index < Reg(cfg, t, i).size
      ensures InBoundsAt(cfg, mem, t, i, index)
    {
      ElementKeeps(cfg, s.mem, mem, t, i, index);
    }
  }

  /** One call through the port is one call of the engine. */
  lemma EffectIsRun(cfg: Config, coils: Coils, port: Port<Session>, s: Session, calls: seq<Call>)
    requires LeadsTo(port, cfg, coils) && |calls| <= 1
    ensures var r := Run(EngineOf(cfg), s.store, s.pending, calls);
            Effect(port, s, Calls(calls)) == Session(r.state, r.pending)
  {
    assert Inside(0);
    if |calls| == 1 {
      var first := Perform(EngineOf(cfg), s.store, s.pending, calls[0]);
      assert calls[1..] == [];
      assert Run(EngineOf(cfg), first.state, first.pending, calls[1..]) == Outcome(first.state, first.pending, 0);
    }
  }

  lemma EffectIsSafe(cfg: Config, coils: Coils, port: Port<Session>, start: seq<byte>, s: Session, deed: Deed)
    requires LeadsTo(port, cfg, coils) && CoilsAreHarmless(cfg, port)
    requires SafeSession(cfg, start, s) && AllOrdered(cfg, |s.store.mem|)
    requires deed.Calls? ==> |deed.calls| <= 1
    requires deed.PutCoils? ==> port.find(deed.word, MDB_COILS_RW).Some?
    ensures SafeSession(cfg, start, Effect(port, s, deed))
  {
    if deed.Calls? {
      EffectIsRun(cfg, coils, port, s, deed.calls);
      RunsAreSafe(cfg, s.store, s.pending, deed.calls);
      SameProtectedThrough(cfg, start, s.store.mem, Effect(port, s, deed).store.mem);
    } else {
      var r := port.setCoils(s, port.find(deed.word, MDB_COILS_RW).value, deed.data);
      FreeBytesAreSafe(cfg, start, s.store, r.store.mem);
    }
  }

  lemma SameProtectedThrough(cfg: Config, x: seq<byte>, y: seq<byte>, z: seq<byte>)
    requires SameProtected(cfg, x, y) && SameProtected(cfg, y, z)
    ensures SameProtected(cfg, x, z)
  {
  }

  /** The session after the slave has answered packets. */
  function Answered(port: Port<Session>, s: Session, packets: seq<seq<byte>>): Session
    requires forall k :: 0 <= k < |packets| ==> |packets[k]| >= BUFFER
  {
    if packets == [] then s
    else Served(port, Answered(port, s, packets[..|packets| - 1]), packets[|packets| - 1]).0
  }

  /**
    After any Modbus traffic, well-formed or not: saved registers agree with their mirrors and
    the checksums are valid, bounded elements are inside their bounds, and read-only bytes that
    are no credentials are what they were.
   */
  lemma {:induction false} TrafficIsSafe(cfg: Config, coils: Coils, port: Port<Session>, start: seq<byte>, s: Session,
                                         packets: seq<seq<byte>>)
    requires LeadsTo(port, cfg, coils) && CoilsAreHarmless(cfg, port)
    requires SafeSession(cfg, start, s) && AllOrdered(cfg, |s.store.mem|)
    requires forall k :: 0 <= k < |packets| ==> |packets[k]| >= BUFFER
    ensures SafeSession(cfg, start, Answered(port, s, packets))
  {
    if packets != [] {
      var n := |packets| - 1;
      TrafficIsSafe(cfg, coils, port, start, s, packets[..n]);
      var before := Answered(port, s, packets[..n]);
      var deed := PacketIsCall(port, before, packets[n]);
      EffectIsSafe(cfg, coils, port, start, before, deed);
    }
  }
}
