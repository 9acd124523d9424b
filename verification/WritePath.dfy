/**
  What a write through the communication interfaces does to a device (main/regs.c): the
  engine behind the pending buffer. A complete element is clamped, checked, stored, mirrored
  and acted on.

  The functions here are the specification of the methods of `Device`.
 */
module WritePath {
  import opened Bits
  import opened Memory
  import opened Registers
  import opened Lookup
  import opened PendingBuffer

  const ENABLE_SPECIAL_HTTP_COMM := 0x53ff
  const DISABLE_SPECIAL_HTTP_COMM := 0x5400

  /**
    The state behind the write path. Three registers that the firmware itself rewrites while
    it handles a write are kept beside the memory: `table_to_save`, the save bit of
    `async_flags` and the credential bit of `permission`.
   */
  datatype Store = Store(
    mem: seq<byte>,
    mirrors: seq<seq<byte>>,
    tableToSave: set<nat>,
    saveRequested: bool,
    credentialEnabled: bool)

  predicate StoreOk(cfg: Config, s: Store) {
    && ConfigOk(cfg, |s.mem|)
    && |s.mirrors| == |cfg.tables|
    && forall t :: 0 <= t < |cfg.tables| ==> |s.mirrors[t]| == cfg.tables[t].bufferSize
  }

  predicate IsReg(cfg: Config, t: nat, i: nat) {
    t < |cfg.tables| && i < |cfg.tables[t].regs|
  }

  function Reg(cfg: Config, t: nat, i: nat): Register
    requires IsReg(cfg, t, i)
  {
    cfg.tables[t].regs[i]
  }

  /** What the write path needs to know of one register. */
  lemma RegOk(cfg: Config, memSize: nat, t: nat, i: nat)
    requires ConfigOk(cfg, memSize) && IsReg(cfg, t, i)
    ensures var d := Reg(cfg, t, i);
            && d.Ok() && d.End() <= memSize && cfg.tables[t].bufferSize >= 4
            && (d.saving ==> d.savedAddress + d.Bytes() <= cfg.tables[t].bufferSize - 4)
  {
    assert TableOk(cfg.tables[t]);
  }

  // ------------------------------------------------------------------------ elements

  /** The address of the element that address `a` of a register belongs to. */
  function ElementStart(d: Register, a: nat): nat
    requires d.address <= a
  {
    a - Remainder(a - d.address, d.kind)
  }

  /** The number of that element in the register's array. */
  function ElementIndex(d: Register, a: nat): nat
    requires d.address <= a
  {
    Quotient(a - d.address, d.kind)
  }

  lemma ElementInside(d: Register, a: nat)
    requires d.Holds(a)
    ensures d.address <= ElementStart(d, a) <= a < ElementStart(d, a) + d.Item() <= d.End()
    ensures ElementIndex(d, a) < d.size
    ensures ElementStart(d, a) == d.address + Scale(ElementIndex(d, a), d.kind)
  {
    var n := a - d.address;
    DivisionLaw(n, d.kind);
    ScaleMonotone(Quotient(n, d.kind), d.size, d.kind);
  }

  /** Every address of an element leads to the element. */
  lemma SameElementStart(d: Register, a: nat, b: nat)
    requires d.Holds(a) && ElementStart(d, a) <= b < ElementStart(d, a) + d.Item()
    ensures d.Holds(b) && ElementStart(d, b) == ElementStart(d, a)
  {
    ElementInside(d, a);
    DivisionIsUnique(ElementIndex(d, a), b - ElementStart(d, a), d.kind);
  }

  // ----------------------------------------------------------------------- clamping

  /** The bound of element `index`. */
  function Bound(d: Register, bounds: Option<seq<byte>>, index: nat): Option<int>
    requires d.BoundsOk(bounds) && index < d.size
  {
    ScaleMonotone(index, d.size, d.kind);
    if bounds.Some? then Some(Decode(d.kind, Element(bounds.value, d.kind, index))) else None
  }

  /** `regs_write_value_check`: the maximum is applied first, then the minimum. */
  function Clamp(v: int, bottom: Option<int>, top: Option<int>): int {
    var topped := if top.Some? && v > top.value then top.value else v;
    if bottom.Some? && topped < bottom.value then bottom.value else topped
  }

  function ClampBytes(d: Register, index: nat, s: seq<byte>): (r: seq<byte>)
    requires d.Ok() && index < d.size && |s| == d.Item()
    ensures |r| == d.Item()
  {
    var bottom, top := Bound(d, d.minValue, index), Bound(d, d.maxValue, index);
    Encode(d.kind, Clamp(Decode(d.kind, s), bottom, top))
  }

  /** `is_ascii_symbol_or_digital` on one byte. */
  predicate IsText(b: byte) {
    0x30 <= b <= 0x39 || 0x41 <= b <= 0x5a || 0x61 <= b <= 0x7a || b == 0x5f || b == 0x2d
  }

  predicate AllText(s: seq<byte>) {
    |s| > 0 && forall i :: 0 <= i < |s| ==> IsText(s[i])
  }

  // ------------------------------------------------------------------------- mirror

  /** The part of a mirror that its checksum covers: whole words only. */
  function CoveredBytes(size: nat): (n: nat)
    requires size >= 4
    ensures size - 8 < n <= size - 4 && n % 4 == 0
  {
    (size - 4) / 4 * 4
  }

  /** `mirror_recalc_crc_unlocked` */
  function Sealed(cfg: Config, m: seq<byte>): (r: seq<byte>)
    requires |m| >= 4
    ensures |r| == |m|
  {
    Splice(m, |m| - 4, cfg.crc32(m[..CoveredBytes(|m|)]))
  }

  /** `mirror_check_crc` */
  predicate CrcValid(cfg: Config, m: seq<byte>)
    requires |m| >= 4
  {
    m[|m| - 4..] == cfg.crc32(m[..CoveredBytes(|m|)])
  }

  lemma SealedIsValid(cfg: Config, m: seq<byte>)
    requires |m| >= 4
    ensures CrcValid(cfg, Sealed(cfg, m))
    ensures Sealed(cfg, m)[..|m| - 4] == m[..|m| - 4]
  {
    SpliceParts(m, |m| - 4, cfg.crc32(m[..CoveredBytes(|m|)]));
    assert Sealed(cfg, m)[..CoveredBytes(|m|)] == m[..CoveredBytes(|m|)];
  }

  /** The bytes of a register in memory. */
  function Current(mem: seq<byte>, d: Register): (s: seq<byte>)
    requires d.End() <= |mem|
    ensures |s| == d.Bytes()
  {
    Slice(mem, d.address, d.Bytes())
  }

  /** The slot of a saved register in a mirror. */
  function Slot(m: seq<byte>, d: Register): (s: seq<byte>)
    requires d.savedAddress + d.Bytes() <= |m|
    ensures |s| == d.Bytes()
  {
    Slice(m, d.savedAddress, d.Bytes())
  }

  /** A mirror after a register was copied into it. */
  function Refreshed(cfg: Config, m: seq<byte>, d: Register, value: seq<byte>): (r: seq<byte>)
    requires d.savedAddress + |value| <= |m| && |m| >= 4
    ensures |r| == |m|
  {
    Sealed(cfg, Splice(m, d.savedAddress, value))
  }

  /** `mirror_access_write`, with the request for a flash save that follows a change. */
  function MirrorWrite(cfg: Config, s: Store, t: nat, d: Register): Store
    requires t < |s.mirrors| && |s.mirrors[t]| >= 4 && d.End() <= |s.mem|
  {
    var m := s.mirrors[t];
    if d.saving && d.savedAddress + d.Bytes() <= |m| && Slot(m, d) != Current(s.mem, d) then
      s.(mirrors := s.mirrors[t := Refreshed(cfg, m, d, Current(s.mem, d))],
         tableToSave := s.tableToSave + {t},
         saveRequested := true)
    else s
  }

  // ------------------------------------------------------------------------- commits

  /** `end_addr == end_of_reg_addr(&regs_global->vars.command)` */
  predicate IsCommand(cfg: Config, d: Register) {
    var p := FindAddress(cfg.tables, cfg.commandAddress);
    p.At? && cfg.tables[p.table].regs[p.index].End() == d.End()
  }

  /** `execute_main_command`, as far as it decides who may write. */
  function RunCommand(s: Store, command: nat): Store {
    if command == ENABLE_SPECIAL_HTTP_COMM then s.(credentialEnabled := true)
    else if command == DISABLE_SPECIAL_HTTP_COMM then s.(credentialEnabled := false)
    else s
  }

  /** `regs_hadle_sets` */
  function HandleSets(cfg: Config, s: Store, t: nat, d: Register): Store
    requires t < |s.mirrors| && |s.mirrors[t]| >= 4 && d.End() <= |s.mem| && cfg.commandAddress + 2 <= |s.mem|
  {
    var mirrored := MirrorWrite(cfg, s, t, d);
    if IsCommand(cfg, d) then RunCommand(mirrored, Value(Slice(s.mem, cfg.commandAddress, 2))) else mirrored
  }

  predicate Writable(s: Store, d: Register) {
    !d.readOnly || (d.credential && s.credentialEnabled)
  }

  /** The value check rejects only text registers. */
  predicate Accepted(cfg: Config, d: Register, checked: seq<byte>) {
    d.address in cfg.textAddresses ==> AllText(checked)
  }

  /** A complete element: value check, store, follow-up actions (regs.c:119-130). */
  function Commit(cfg: Config, s: Store, t: nat, i: nat, e: nat, bytes: seq<byte>): (Store, int)
    requires StoreOk(cfg, s) && IsReg(cfg, t, i)
    requires Reg(cfg, t, i).Holds(e) && ElementStart(Reg(cfg, t, i), e) == e && |bytes| == Reg(cfg, t, i).Item()
  {
    var d := Reg(cfg, t, i);
    RegOk(cfg, |s.mem|, t, i);
    ElementInside(d, e);
    var checked := ClampBytes(d, ElementIndex(d, e), bytes);
    if Accepted(cfg, d, checked) then (HandleSets(cfg, s.(mem := Splice(s.mem, e, checked)), t, d), 1)
    else (HandleSets(cfg, s, t, d), -ILLEGAL_DATA_VALUE)
  }

  // -------------------------------------------------------------------------- engine

  function LocateElement(cfg: Config, a: nat): Option<Spot> {
    var p := FindAddress(cfg.tables, a);
    if p == Nowhere then None
    else
      var d := cfg.tables[p.table].regs[p.index];
      Some(Spot(ElementStart(d, a), d.Item()))
  }

  predicate AllowedAt(cfg: Config, s: Store, a: nat) {
    var p := FindAddress(cfg.tables, a);
    p.At? && Writable(s, cfg.tables[p.table].regs[p.index])
  }

  /** Commits are asked for at the start of an element and with all its bytes only. */
  predicate CommitReady(cfg: Config, s: Store, e: nat, bytes: seq<byte>) {
    var p := FindAddress(cfg.tables, e);
    && StoreOk(cfg, s) && p.At?
    && ElementStart(cfg.tables[p.table].regs[p.index], e) == e
    && |bytes| == cfg.tables[p.table].regs[p.index].Item()
  }

  function CommitAt(cfg: Config, s: Store, e: nat, bytes: seq<byte>): (Store, int) {
    if CommitReady(cfg, s, e, bytes) then
      var p := FindAddress(cfg.tables, e);
      Commit(cfg, s, p.table, p.index, e, bytes)
    else (s, -ILLEGAL_DATA_ADDRESS)
  }

  /** The engine of a device. */
  function EngineOf(cfg: Config): Engine<Store> {
    Engine(
      (a: nat) => LocateElement(cfg, a),
      (s: Store, e: nat) => AllowedAt(cfg, s, e),
      (s: Store, e: nat, bytes: seq<byte>) => CommitAt(cfg, s, e, bytes))
  }

  /** Named by a proof that looks inside an engine or a port. */
  predicate Inside(n: nat) {
    true
  }

  /**
    `eng` is the engine of the device. The equation stands behind `Inside`, so that a proof to
    which any engine will do is not slowed down by what is inside this one.
   */
  ghost predicate IsEngineOf(eng: Engine<Store>, cfg: Config) {
    forall n: nat :: Inside(n) ==> eng == EngineOf(cfg)
  }

  lemma EngineIs(eng: Engine<Store>, cfg: Config)
    requires IsEngineOf(eng, cfg)
    ensures eng == EngineOf(cfg)
  {
    assert Inside(0);
  }

  /** The element around an address of a register. */
  lemma LocateAt(cfg: Config, memSize: nat, t: nat, i: nat, a: nat)
    requires ConfigOk(cfg, memSize) && IsReg(cfg, t, i) && Reg(cfg, t, i).Holds(a)
    ensures var d := Reg(cfg, t, i);
            && FindAddress(cfg.tables, a) == At(t, i)
            && Locate(EngineOf(cfg), a) == Some(Spot(ElementStart(d, a), d.Item()))
            && d.Holds(ElementStart(d, a)) && FindAddress(cfg.tables, ElementStart(d, a)) == At(t, i)
            && ElementStart(d, ElementStart(d, a)) == ElementStart(d, a)
  {
    var d := Reg(cfg, t, i);
    FindAddressUnique(cfg, memSize, t, i, a);
    RegOk(cfg, memSize, t, i);
    ElementInside(d, a);
    SameElementStart(d, a, ElementStart(d, a));
    FindAddressUnique(cfg, memSize, t, i, ElementStart(d, a));
  }

  lemma LocateNowhere(cfg: Config, a: nat)
    requires FindAddress(cfg.tables, a) == Nowhere
    ensures Locate(EngineOf(cfg), a) == None
  {
  }

  /** The elements of a device do not overlap. */
  lemma EngineCoherent(cfg: Config, memSize: nat)
    requires ConfigOk(cfg, memSize)
    ensures Coherent(EngineOf(cfg))
  {
    var eng := EngineOf(cfg);
    forall a, b | Locate(eng, a).Some? && Around(Locate(eng, a).value, b)
      ensures Locate(eng, b) == Locate(eng, a)
    {
      var p := FindAddress(cfg.tables, a);
      var d := Reg(cfg, p.table, p.index);
      LocateAt(cfg, memSize, p.table, p.index, a);
      SameElementStart(d, a, b);
      LocateAt(cfg, memSize, p.table, p.index, b);
    }
  }
}
