/**
  The promises of the write path, for a device and for every run of calls: the results about
  pending bytes, clamping, mirrors, bounds and protected bytes put together.
 */
module WriteTheorems {
  import opened Bits
  import opened Memory
  import opened Registers
  import opened Lookup
  import opened PendingBuffer
  import opened WritePath
  import opened WriteLaws

  // ------------------------------------------------------------------ invariants of runs

  /** Everything a run of calls keeps, relative to the memory it started from. */
  predicate Safe(cfg: Config, start: seq<byte>, s: Store) {
    && StoreOk(cfg, s)
    && MirrorsAgree(cfg, s)
    && AllInBounds(cfg, s.mem)
    && SameProtected(cfg, start, s.mem)
  }

  lemma CommitKeepsSafe(cfg: Config, start: seq<byte>, s: Store, e: nat, bytes: seq<byte>)
    requires Safe(cfg, start, s) && AllOrdered(cfg, |s.mem|) && AllowedAt(cfg, s, e)
    ensures Safe(cfg, start, CommitAt(cfg, s, e, bytes).0)
  {
    if CommitReady(cfg, s, e, bytes) {
      var p := FindAddress(cfg.tables, e);
      CommitAtElement(cfg, s, e, bytes);
      CommitAgrees(cfg, s, p.table, p.index, e, bytes);
      CommitInBounds(cfg, s, p.table, p.index, e, bytes);
      CommitKeepsProtected(cfg, s, e, bytes);
    }
  }

  /**
    Over every run of `regs_set` and `regs_set_buffer` calls, with partial and rejected
    writes among them: saved registers agree with their mirrors and the mirrors' checksums are
    valid, bounded elements stay inside their bounds, and read-only bytes that are no
    credentials never change.
   */
  lemma RunsAreSafe(cfg: Config, s: Store, p: Pending, calls: seq<Call>)
    requires StoreOk(cfg, s) && MirrorsAgree(cfg, s)
    requires AllOrdered(cfg, |s.mem|) && AllInBounds(cfg, s.mem)
    requires PendingOk(EngineOf(cfg), p)
    ensures var r := Run(EngineOf(cfg), s, p, calls);
            Safe(cfg, s.mem, r.state) && PendingOk(EngineOf(cfg), r.pending)
  {
    var eng := EngineOf(cfg);
    EngineCoherent(cfg, |s.mem|);
    var inv := (x: Store) => Safe(cfg, s.mem, x);
    forall s', e, bytes | inv(s') && eng.allowed(s', e) ensures inv(eng.commit(s', e, bytes).0) {
      CommitKeepsSafe(cfg, s.mem, s', e, bytes);
    }
    RunKeeps(eng, inv, s, p, calls);
  }

  // ---------------------------------------------------------------- buffers of elements

  /** `a` lies in a register without minimum and maximum. */
  predicate IsUnbounded(cfg: Config, a: nat) {
    var p := FindAddress(cfg.tables, a);
    p.At? && var d := cfg.tables[p.table].regs[p.index]; d.minValue == None && d.maxValue == None
  }

  /** `a` lies in a register that may always be written, holds no text and has no bounds. */
  predicate IsOpen(cfg: Config, a: nat) {
    var p := FindAddress(cfg.tables, a);
    && p.At? && IsUnbounded(cfg, a)
    && var d := cfg.tables[p.table].regs[p.index]; !d.readOnly && d.address !in cfg.textAddresses
  }

  /** The bytes stored when `bytes` are written to the element at `e`. */
  function ClampAt(cfg: Config, e: nat, bytes: seq<byte>): seq<byte> {
    var p := FindAddress(cfg.tables, e);
    if p == Nowhere then bytes
    else
      var d := cfg.tables[p.table].regs[p.index];
      if d.Ok() && ElementIndex(d, e) < d.size && |bytes| == d.Item()
      then ClampBytes(d, ElementIndex(d, e), bytes) else bytes
  }

  function Clamping(cfg: Config): (nat, seq<byte>) -> seq<byte> {
    (e: nat, bytes: seq<byte>) => ClampAt(cfg, e, bytes)
  }

  /** The value of a stored element is the clamped value of the bytes written to it. */
  lemma ClampAtValue(cfg: Config, memSize: nat, t: nat, i: nat, e: nat, bytes: seq<byte>)
    requires ConfigOk(cfg, memSize) && IsReg(cfg, t, i) && Reg(cfg, t, i).Holds(e)
    requires |bytes| == Reg(cfg, t, i).Item()
    ensures var d := Reg(cfg, t, i);
            && d.Ok() && ElementIndex(d, e) < d.size && |ClampAt(cfg, e, bytes)| == |bytes|
            && var low, high := Bound(d, d.minValue, ElementIndex(d, e)), Bound(d, d.maxValue, ElementIndex(d, e));
               Decode(d.kind, ClampAt(cfg, e, bytes)) == Clamp(Decode(d.kind, bytes), low, high)
  {
    var d := Reg(cfg, t, i);
    FindAddressUnique(cfg, memSize, t, i, e);
    RegOk(cfg, memSize, t, i);
    ElementInside(d, e);
    var q := ElementIndex(d, e);
    DecodeEncode(d.kind, Clamp(Decode(d.kind, bytes), Bound(d, d.minValue, q), Bound(d, d.maxValue, q)));
  }

  /**
    The element at `e` takes `bytes`: its register is writable, with the credential permission if
    `credential` says that it is given, and what is stored is text where it must be. With the
    permission the command register is left out, because a command may end it.
   */
  predicate Takes(cfg: Config, credential: bool, e: nat, bytes: seq<byte>) {
    var p := FindAddress(cfg.tables, e);
    && p.At?
    && var d := cfg.tables[p.table].regs[p.index];
       && (!d.readOnly || (credential && d.credential))
       && Accepted(cfg, d, ClampAt(cfg, e, bytes))
       && (credential ==> !IsCommand(cfg, d))
  }

  function Taking(cfg: Config, credential: bool): (nat, seq<byte>) -> bool {
    (e: nat, bytes: seq<byte>) => Takes(cfg, credential, e, bytes)
  }

  function TakingUnbounded(cfg: Config, credential: bool): (nat, seq<byte>) -> bool {
    (e: nat, bytes: seq<byte>) => Takes(cfg, credential, e, bytes) && IsUnbounded(cfg, e)
  }

  /** The store is in order and the credential permission is given, if it is asked for. */
  predicate Permitted(cfg: Config, credential: bool, s: Store) {
    StoreOk(cfg, s) && (credential ==> s.credentialEnabled)
  }

  function Permits(cfg: Config, credential: bool): Store -> bool {
    (s: Store) => Permitted(cfg, credential, s)
  }

  function MemoryOf(): Store -> seq<byte> {
    (s: Store) => s.mem
  }

  /** A device stores what its elements take, clamped. */
  lemma DeviceStores(cfg: Config, credential: bool)
    ensures Stores(EngineOf(cfg), Permits(cfg, credential), MemoryOf(), Taking(cfg, credential), Clamping(cfg))
  {
    var eng := EngineOf(cfg);
    forall s: Store, e: nat, bytes: seq<byte>
      | Permitted(cfg, credential, s) && Takes(cfg, credential, e, bytes) && Locate(eng, e) == Some(Spot(e, |bytes|))
      ensures var done := CommitAt(cfg, s, e, bytes);
              && AllowedAt(cfg, s, e) && done.1 == 1 && Permitted(cfg, credential, done.0)
              && |ClampAt(cfg, e, bytes)| == |bytes| && e + |bytes| <= |s.mem|
              && done.0.mem == Splice(s.mem, e, ClampAt(cfg, e, bytes))
    {
      TakenCommit(cfg, credential, s, e, bytes);
    }
  }

  lemma TakenCommit(cfg: Config, credential: bool, s: Store, e: nat, bytes: seq<byte>)
    requires Permitted(cfg, credential, s) && Takes(cfg, credential, e, bytes)
    requires Locate(EngineOf(cfg), e) == Some(Spot(e, |bytes|))
    ensures var done := CommitAt(cfg, s, e, bytes);
            && AllowedAt(cfg, s, e) && done.1 == 1 && Permitted(cfg, credential, done.0)
            && |ClampAt(cfg, e, bytes)| == |bytes| && e + |bytes| <= |s.mem|
            && done.0.mem == Splice(s.mem, e, ClampAt(cfg, e, bytes))
  {
    var p := FindAddress(cfg.tables, e);
    CommitAtElement(cfg, s, e, bytes);
    CommitMemory(cfg, s, p.table, p.index, e, bytes);
    var stored := s.(mem := Splice(s.mem, e, ClampAt(cfg, e, bytes)));
    HandleSetsFrame(cfg, stored, p.table, p.index);
    if credential {
      OtherKeepsPermission(cfg, stored, p.table, p.index);
    }
  }

  /** Only the command register changes the credential permission. */
  lemma OtherKeepsPermission(cfg: Config, s: Store, t: nat, i: nat)
    requires StoreOk(cfg, s) && IsReg(cfg, t, i) && !IsCommand(cfg, Reg(cfg, t, i))
    requires |s.mirrors[t]| >= 4 && Reg(cfg, t, i).End() <= |s.mem|
    ensures HandleSets(cfg, s, t, Reg(cfg, t, i)).credentialEnabled == s.credentialEnabled
  {
  }

  /**
    `regs_set_buffer` over whole elements that take their bytes, text and, with the permission,
    credentials among them: each element takes the clamped value of its bytes, nothing else in
    memory changes, and nothing stays pending.
   */
  lemma BufferStored(cfg: Config, credential: bool, s: Store, p: Pending, a: nat, data: seq<byte>)
    requires Permitted(cfg, credential, s) && data != []
    requires WholeElements(EngineOf(cfg), Taking(cfg, credential), a, data)
    requires Undisturbed(EngineOf(cfg), p, a, data)
    ensures |MapElements(EngineOf(cfg), Clamping(cfg), a, data)| == |data| && a + |data| <= |s.mem|
    ensures var r := SetBytes(EngineOf(cfg), s, p, a, data);
            && r.code == 1 && r.pending == CLEARED && Permitted(cfg, credential, r.state)
            && r.state.mem == Splice(s.mem, a, MapElements(EngineOf(cfg), Clamping(cfg), a, data))
  {
    EngineCoherent(cfg, |s.mem|);
    BytewiseIsElementwise(EngineOf(cfg), s, p, a, data);
    DeviceStores(cfg, credential);
    ElementsStored(EngineOf(cfg), Permits(cfg, credential), MemoryOf(), Taking(cfg, credential), Clamping(cfg),
                   s, p, a, data);
  }

  lemma UnboundedKeeps(cfg: Config, credential: bool)
    ensures KeepsBytes(EngineOf(cfg), TakingUnbounded(cfg, credential), Clamping(cfg))
  {
    var eng := EngineOf(cfg);
    forall e: nat, bytes: seq<byte>
      | TakingUnbounded(cfg, credential)(e, bytes) && Locate(eng, e) == Some(Spot(e, |bytes|))
      ensures Clamping(cfg)(e, bytes) == bytes
    {
      UnboundedClamp(cfg, e, bytes);
    }
  }

  /** What stores wherever `more` is taken stores wherever less is. */
  lemma StoresLess<S(!new)>(eng: Engine<S>, ok: S -> bool, view: S -> seq<byte>, more: (nat, seq<byte>) -> bool,
                            less: (nat, seq<byte>) -> bool, checked: (nat, seq<byte>) -> seq<byte>)
    requires Stores(eng, ok, view, more, checked) && forall e, bytes :: less(e, bytes) ==> more(e, bytes)
    ensures Stores(eng, ok, view, less, checked)
  {
    forall s: S, e: nat, bytes: seq<byte> | ok(s) && less(e, bytes) && Locate(eng, e) == Some(Spot(e, |bytes|))
      ensures var done := eng.commit(s, e, bytes);
              && eng.allowed(s, e) && done.1 == 1 && ok(done.0)
              && |checked(e, bytes)| == |bytes| && e + |bytes| <= |view(s)|
              && view(done.0) == Splice(view(s), e, checked(e, bytes))
    {
      assert more(e, bytes) && eng.commit(s, e, bytes).1 == 1;
    }
  }

  /** A device stores what elements without bounds take as it is. */
  lemma UnboundedStores(cfg: Config, credential: bool)
    ensures Stores(EngineOf(cfg), Permits(cfg, credential), MemoryOf(), TakingUnbounded(cfg, credential), Clamping(cfg))
    ensures KeepsBytes(EngineOf(cfg), TakingUnbounded(cfg, credential), Clamping(cfg))
  {
    DeviceStores(cfg, credential);
    UnboundedKeeps(cfg, credential);
    StoresLess(EngineOf(cfg), Permits(cfg, credential), MemoryOf(), Taking(cfg, credential),
               TakingUnbounded(cfg, credential), Clamping(cfg));
  }

  /** Without bounds the bytes are stored as they are. */
  lemma UnboundedBufferStored(cfg: Config, credential: bool, s: Store, p: Pending, a: nat, data: seq<byte>)
    requires Permitted(cfg, credential, s) && data != []
    requires WholeElements(EngineOf(cfg), TakingUnbounded(cfg, credential), a, data)
    requires Undisturbed(EngineOf(cfg), p, a, data)
    ensures a + |data| <= |s.mem|
    ensures var r := SetBytes(EngineOf(cfg), s, p, a, data);
            && r.code == 1 && r.pending == CLEARED && Permitted(cfg, credential, r.state)
            && r.state.mem == Splice(s.mem, a, data)
  {
    var eng := EngineOf(cfg);
    EngineCoherent(cfg, |s.mem|);
    BytewiseIsElementwise(eng, s, p, a, data);
    UnboundedStores(cfg, credential);
    ElementsStored(eng, Permits(cfg, credential), MemoryOf(), TakingUnbounded(cfg, credential), Clamping(cfg),
                   s, p, a, data);
    MapElementsSame(eng, TakingUnbounded(cfg, credential), Clamping(cfg), a, data);
  }

  lemma UnboundedClamp(cfg: Config, e: nat, bytes: seq<byte>)
    requires IsUnbounded(cfg, e)
    ensures ClampAt(cfg, e, bytes) == bytes
  {
    var p := FindAddress(cfg.tables, e);
    var d := cfg.tables[p.table].regs[p.index];
    if |bytes| == d.Item() {
      EncodeDecode(d.kind, bytes);
    }
  }

  /** A buffer that runs into a barred address: all before it is stored, nothing behind it. */
  lemma BufferStopsAtBarred(cfg: Config, credential: bool, s: Store, p: Pending, a: nat, x: seq<byte>, y: seq<byte>)
    requires Permitted(cfg, credential, s) && x != [] && y != []
    requires WholeElements(EngineOf(cfg), Taking(cfg, credential), a, x)
    requires Undisturbed(EngineOf(cfg), p, a, x) && Barred(EngineOf(cfg), a + |x|)
    ensures |MapElements(EngineOf(cfg), Clamping(cfg), a, x)| == |x| && a + |x| <= |s.mem|
    ensures var r := SetBytes(EngineOf(cfg), s, p, a, x + y);
            && r.code == -2 && r.pending == CLEARED
            && r.state.mem == Splice(s.mem, a, MapElements(EngineOf(cfg), Clamping(cfg), a, x))
  {
    EngineCoherent(cfg, |s.mem|);
    DeviceStores(cfg, credential);
    StoredUpToBarred(EngineOf(cfg), Permits(cfg, credential), MemoryOf(), Taking(cfg, credential), Clamping(cfg),
                     s, p, a, x, y);
  }

  /** Bytes that are no text for an element of a writable text register. */
  predicate IsNoText(cfg: Config, credential: bool, e: nat, bytes: seq<byte>) {
    var p := FindAddress(cfg.tables, e);
    && p.At?
    && var d := cfg.tables[p.table].regs[p.index];
       (!d.readOnly || (credential && d.credential)) && !Accepted(cfg, d, ClampAt(cfg, e, bytes))
  }

  lemma NoTextIsRejected(cfg: Config, credential: bool, e: nat, bytes: seq<byte>)
    requires IsNoText(cfg, credential, e, bytes) && Locate(EngineOf(cfg), e) == Some(Spot(e, |bytes|))
    ensures Rejects(EngineOf(cfg), Permits(cfg, credential), MemoryOf(), e, bytes, -ILLEGAL_DATA_VALUE)
  {
    var p := FindAddress(cfg.tables, e);
    forall s: Store | Permitted(cfg, credential, s)
      ensures AllowedAt(cfg, s, e) && CommitAt(cfg, s, e, bytes).1 == -ILLEGAL_DATA_VALUE
      ensures CommitAt(cfg, s, e, bytes).0.mem == s.mem && e <= |s.mem|
    {
      CommitAtElement(cfg, s, e, bytes);
      CommitMemory(cfg, s, p.table, p.index, e, bytes);
      HandleSetsFrame(cfg, s, p.table, p.index);
    }
  }

  /** All of `x` is in memory at `a`, clamped, and nothing else has changed; nothing stays pending. */
  predicate StoredOnly(cfg: Config, s: Store, a: nat, x: seq<byte>, r: Outcome<Store>) {
    var stored := MapElements(EngineOf(cfg), Clamping(cfg), a, x);
    && |stored| == |x| && a + |x| <= |s.mem|
    && r.pending == CLEARED && r.state.mem == Splice(s.mem, a, stored)
  }

  lemma BufferStopsAtRejected(cfg: Config, credential: bool, s: Store, p: Pending, a: nat, x: seq<byte>, e: nat,
                              z: seq<byte>, rest: seq<byte>)
    requires Permitted(cfg, credential, s) && e == a + |x|
    requires WholeElements(EngineOf(cfg), Taking(cfg, credential), a, x) && Undisturbed(EngineOf(cfg), p, a, x + z)
    requires Locate(EngineOf(cfg), e) == Some(Spot(e, |z|))
    requires Rejects(EngineOf(cfg), Permits(cfg, credential), MemoryOf(), e, z, -ILLEGAL_DATA_VALUE)
    ensures var r := SetBytes(EngineOf(cfg), s, p, a, x + z + rest);
            r.code == -3 && StoredOnly(cfg, s, a, x, r)
  {
    EngineCoherent(cfg, |s.mem|);
    DeviceStores(cfg, credential);
    StoredUpToRejected(EngineOf(cfg), Permits(cfg, credential), MemoryOf(), Taking(cfg, credential), Clamping(cfg),
                       s, p, a, x, e, z, rest, -ILLEGAL_DATA_VALUE);
  }

  /** A buffer that comes, at `e`, to bytes which are no text: all before them is stored, and nothing else. */
  lemma BufferStopsAtNoText(cfg: Config, credential: bool, s: Store, p: Pending, a: nat, x: seq<byte>, e: nat,
                            z: seq<byte>, rest: seq<byte>)
    requires Permitted(cfg, credential, s) && e == a + |x|
    requires WholeElements(EngineOf(cfg), Taking(cfg, credential), a, x) && Undisturbed(EngineOf(cfg), p, a, x + z)
    requires IsNoText(cfg, credential, e, z) && Locate(EngineOf(cfg), e) == Some(Spot(e, |z|))
    ensures var r := SetBytes(EngineOf(cfg), s, p, a, x + z + rest);
            r.code == -3 && StoredOnly(cfg, s, a, x, r)
  {
    NoTextIsRejected(cfg, credential, e, z);
    BufferStopsAtRejected(cfg, credential, s, p, a, x, e, z, rest);
  }

  /** Protected bytes are barred, whatever the credential permission. */
  lemma ProtectedIsBarred(cfg: Config, memSize: nat, a: nat)
    requires ConfigOk(cfg, memSize) && Protected(cfg, a)
    ensures Barred(EngineOf(cfg), a)
  {
    var place := FindAddress(cfg.tables, a);
    if place == Nowhere {
      LocateNowhere(cfg, a);
    } else {
      LocateAt(cfg, memSize, place.table, place.index, a);
      forall s: Store ensures !EngineOf(cfg).allowed(s, Locate(EngineOf(cfg), a).value.start) {
        assert !AllowedAt(cfg, s, Locate(EngineOf(cfg), a).value.start);
      }
    }
  }

  // -------------------------------------------------------------------- stale pending bytes

  /** The value check rejects one-byte text registers only. */
  predicate TextIsBytes(cfg: Config) {
    forall t, i | 0 <= t < |cfg.tables| && 0 <= i < |cfg.tables[t].regs| ::
      cfg.tables[t].regs[i].address in cfg.textAddresses ==> cfg.tables[t].regs[i].kind == U8
  }

  /**
    When byte-wise writing inside an element is writing it at once: exactly when no stale
    pending bytes, with the last new byte among them, complete the element early.
   */
  lemma ElementWriteExact(cfg: Config, s: Store, p: Pending, t: nat, i: nat, a: nat, data: seq<byte>)
    requires StoreOk(cfg, s) && TextIsBytes(cfg) && PendingOk(EngineOf(cfg), p)
    requires IsReg(cfg, t, i) && Reg(cfg, t, i).Holds(a) && Writable(s, Reg(cfg, t, i))
    requires data != [] && a + |data| <= ElementStart(Reg(cfg, t, i), a) + Reg(cfg, t, i).Item()
    ensures SetBytes(EngineOf(cfg), s, p, a, data) == Access(EngineOf(cfg), s, p, a, data)
       <==> Calm(Spot(ElementStart(Reg(cfg, t, i), a), Reg(cfg, t, i).Item()), p, a, data)
  {
    var d, eng := Reg(cfg, t, i), EngineOf(cfg);
    var spot := Spot(ElementStart(d, a), d.Item());
    EngineCoherent(cfg, |s.mem|);
    LocateAt(cfg, |s.mem|, t, i, a);
    SameElement(eng, a, spot.start);
    if spot.item > 1 {
      forall bytes | |bytes| == spot.item ensures eng.commit(s, spot.start, bytes).1 >= 0 {
        CommitAtElement(cfg, s, spot.start, bytes);
        CommitMemory(cfg, s, t, i, spot.start, bytes);
        assert d.address !in cfg.textAddresses;
      }
    }
    ExactlyWhenCalm(eng, s, p, spot, a, data);
  }
}
