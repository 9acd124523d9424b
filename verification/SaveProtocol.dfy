/**
  Saving to flash as a protocol between writers, the duty task and power failures
  (main/mirror_storage.c:95-118, 164-169, 207-241, 285-325 and main/common.c:167-186).

  A writer stores a value, copies the register to the mirror and, if that changed something,
  requests a save; each of the three is one step. Some code stores and never copies
  (main/wireless_control.c:93, 216-218). The duty task takes over all requests at once and then
  saves table after table; before a deep sleep all tables are requested
  (main/sleep_control.c:98-101, 119-122). A power cycle may come between any two steps.
 */
module SaveProtocol {
  import opened Bits
  import opened Memory
  import opened Registers
  import opened WritePath
  import opened Boot

  /** Where a writer stands: between its store and the copy, or between the copy and the request. */
  datatype Writer = Idle | Stored(table: nat, index: nat) | Requesting(table: nat)

  /** `draining` is the duty task's local copy of the requests. */
  datatype Plant = Plant(
    mem: seq<byte>,
    mirrors: seq<seq<byte>>,
    tableToSave: set<nat>,
    saveRequested: bool,
    flash: seq<Flash>,
    writers: seq<Writer>,
    draining: set<nat>)

  /** The register `flash_write_number`, which every save increments in memory. */
  datatype Counter = Counter(table: nat, index: nat)

  predicate PlantOk(cfg: Config, st: Plant) {
    && ConfigOk(cfg, |st.mem|)
    && |st.mirrors| == |st.flash| == |cfg.tables|
    && (forall t :: 0 <= t < |cfg.tables| ==> |st.mirrors[t]| == cfg.tables[t].bufferSize)
    && (forall w :: 0 <= w < |st.writers| && st.writers[w].Stored? ==>
          IsReg(cfg, st.writers[w].table, st.writers[w].index))
  }

  predicate IsCounter(cfg: Config, c: Counter) {
    && IsReg(cfg, c.table, c.index)
    && Reg(cfg, c.table, c.index).Bytes() == 4 && !Reg(cfg, c.table, c.index).isVersion
  }

  /** `flash_write_number` after one more save: it stops at the largest 32-bit value. */
  function Incremented(v: seq<byte>): (r: seq<byte>)
    ensures |r| == 4
  {
    Encoded(if Value(v) < 0xffffffff then Value(v) + 1 else Value(v), 4)
  }

  datatype Step =
    | StoreValue(writer: nat, table: nat, index: nat, value: seq<byte>)
    | CopyToMirror(writer: nat)
    | RequestSave(writer: nat)
    | StorePlainly(table: nat, index: nat, value: seq<byte>)
    | RequestAll
    | TakeRequests
    | SaveTable(table: nat)
    | SaveFails(table: nat)
    | PowerCycle

  /** When a step can happen. Version registers are written by nobody; see `StoreValue`. */
  predicate Enabled(cfg: Config, st: Plant, step: Step) {
    match step
    case StoreValue(w, t, i, v) =>
      && w < |st.writers| && st.writers[w] == Idle && IsReg(cfg, t, i)
      && |v| == Reg(cfg, t, i).Bytes() && !Reg(cfg, t, i).isVersion
    case CopyToMirror(w) => w < |st.writers| && st.writers[w].Stored?
    case RequestSave(w) => w < |st.writers| && st.writers[w].Requesting?
    case StorePlainly(t, i, v) => IsReg(cfg, t, i) && |v| == Reg(cfg, t, i).Bytes() && !Reg(cfg, t, i).isVersion
    case RequestAll => true
    case TakeRequests => st.draining == {}
    case SaveTable(t) => t in st.draining && forall u :: u in st.draining ==> t <= u
    case SaveFails(t) => t in st.draining && forall u :: u in st.draining ==> t <= u
    case PowerCycle => true
  }

  predicate StartValuesFit(tables: seq<Table>, values: seq<seq<seq<byte>>>) {
    |values| == |tables| && forall t :: 0 <= t < |tables| ==> ValuesFit(tables[t].regs, values[t])
  }

  /** Memory after the first `n` tables were started, from RAM that holds zeros. */
  function BootMem(cfg: Config, memSize: nat, values: seq<seq<seq<byte>>>, n: nat): (m: seq<byte>)
    requires ConfigOk(cfg, memSize) && StartValuesFit(cfg.tables, values) && n <= |cfg.tables|
    ensures |m| == memSize
  {
    if n == 0 then Zeros(memSize)
    else StoreAll(BootMem(cfg, memSize, values, n - 1), cfg.tables[n - 1].regs, values[n - 1], |cfg.tables[n - 1].regs|)
  }

  /** The start-up values of all registers. */
  function StartValues(cfg: Config, memSize: nat, flash: seq<Flash>): (v: seq<seq<seq<byte>>>)
    requires ConfigOk(cfg, memSize) && |flash| == |cfg.tables|
    ensures StartValuesFit(cfg.tables, v)
    ensures forall t :: 0 <= t < |v| ==> TableOk(cfg.tables[t]) && v[t] == BootValues(cfg, cfg.tables[t], flash[t])
  {
    seq(|cfg.tables|, t requires 0 <= t < |cfg.tables| => BootValues(cfg, cfg.tables[t], flash[t]))
  }

  /** The mirror of table `t` after a restart. */
  function RestartMirror(cfg: Config, memSize: nat, flash: Flash, t: nat): (m: seq<byte>)
    requires ConfigOk(cfg, memSize) && t < |cfg.tables|
    ensures |m| == cfg.tables[t].bufferSize
  {
    assert TableOk(cfg.tables[t]);
    BootMirror(cfg, cfg.tables[t], Zeros(cfg.tables[t].bufferSize), flash)
  }

  function RestartMirrors(cfg: Config, memSize: nat, flash: seq<Flash>): (m: seq<seq<byte>>)
    requires ConfigOk(cfg, memSize) && |flash| == |cfg.tables|
    ensures |m| == |cfg.tables|
    ensures forall t :: 0 <= t < |m| ==> m[t] == RestartMirror(cfg, memSize, flash[t], t)
  {
    seq(|cfg.tables|, t requires 0 <= t < |cfg.tables| => RestartMirror(cfg, memSize, flash[t], t))
  }

  function RestartMem(cfg: Config, memSize: nat, flash: seq<Flash>): (m: seq<byte>)
    requires ConfigOk(cfg, memSize) && |flash| == |cfg.tables|
    ensures |m| == memSize
  {
    BootMem(cfg, memSize, StartValues(cfg, memSize, flash), |cfg.tables|)
  }

  /** The plant just after a restart with the given flash contents. */
  function Restarted(cfg: Config, memSize: nat, flash: seq<Flash>, writers: nat): (r: Plant)
    requires ConfigOk(cfg, memSize) && |flash| == |cfg.tables|
    ensures PlantOk(cfg, r)
  {
    Plant(RestartMem(cfg, memSize, flash), RestartMirrors(cfg, memSize, flash),
          {}, false, flash, seq(writers, _ => Idle), {})
  }

  /** A value is stored into a register, and nothing else is done. */
  function Puts(cfg: Config, st: Plant, t: nat, i: nat, v: seq<byte>): (r: Plant)
    requires PlantOk(cfg, st) && IsReg(cfg, t, i) && |v| == Reg(cfg, t, i).Bytes()
    ensures PlantOk(cfg, r) && r == st.(mem := r.mem) && |r.mem| == |st.mem|
  {
    RegOk(cfg, |st.mem|, t, i);
    st.(mem := Splice(st.mem, Reg(cfg, t, i).address, v))
  }

  /** A writer stores a value and is going to copy it. */
  function Stores(cfg: Config, st: Plant, w: nat, t: nat, i: nat, v: seq<byte>): (r: Plant)
    requires PlantOk(cfg, st) && w < |st.writers| && IsReg(cfg, t, i) && |v| == Reg(cfg, t, i).Bytes()
    ensures PlantOk(cfg, r) && |r.mem| == |st.mem|
  {
    Puts(cfg, st, t, i, v).(writers := st.writers[w := Stored(t, i)])
  }

  /** It copies the register to the mirror when the slot differs (mirror_storage.c:102-104). */
  function Copies(cfg: Config, st: Plant, w: nat): (r: Plant)
    requires PlantOk(cfg, st) && w < |st.writers| && st.writers[w].Stored?
    ensures PlantOk(cfg, r) && |r.mem| == |st.mem|
  {
    var t, d := st.writers[w].table, Reg(cfg, st.writers[w].table, st.writers[w].index);
    RegOk(cfg, |st.mem|, t, st.writers[w].index);
    if d.saving && Slot(st.mirrors[t], d) != Current(st.mem, d) then
      st.(mirrors := st.mirrors[t := Refreshed(cfg, st.mirrors[t], d, Current(st.mem, d))],
          writers := st.writers[w := Requesting(t)])
    else st.(writers := st.writers[w := Idle])
  }

  /** It asks for a save: `mirror_request_flash_save`. */
  function Requests(cfg: Config, st: Plant, w: nat): (r: Plant)
    requires PlantOk(cfg, st) && w < |st.writers| && st.writers[w].Requesting?
    ensures PlantOk(cfg, r)
  {
    st.(tableToSave := st.tableToSave + {st.writers[w].table}, saveRequested := true,
        writers := st.writers[w := Idle])
  }

  /** `table_to_save` has a bit for each of 32 tables. */
  predicate HasBit(t: nat) {
    t < 32
  }

  function AllTables(): set<nat> {
    set t: nat | t < 32 && HasBit(t)
  }

  /** The duty task saves one table, or fails to. */
  function Saves(cfg: Config, c: Counter, st: Plant, t: nat, succeeds: bool): (r: Plant)
    requires PlantOk(cfg, st) && IsCounter(cfg, c)
    ensures PlantOk(cfg, r) && |r.mem| == |st.mem|
  {
    var counted := Count(cfg, c, st, t).(draining := st.draining - {t});
    if succeeds && t < |cfg.tables| then counted.(flash := st.flash[t := Some(st.mirrors[t])]) else counted
  }

  /** Every save of an existing table counts, whether or not it reaches the flash. */
  function Count(cfg: Config, c: Counter, st: Plant, t: nat): (r: Plant)
    requires PlantOk(cfg, st) && IsCounter(cfg, c)
    ensures PlantOk(cfg, r) && r == st.(mem := r.mem) && |r.mem| == |st.mem|
  {
    var d := Reg(cfg, c.table, c.index);
    RegOk(cfg, |st.mem|, c.table, c.index);
    if t < |cfg.tables| then Puts(cfg, st, c.table, c.index, Incremented(Current(st.mem, d))) else st
  }

  function Next(cfg: Config, c: Counter, st: Plant, step: Step): (r: Plant)
    requires PlantOk(cfg, st) && IsCounter(cfg, c) && Enabled(cfg, st, step)
    ensures PlantOk(cfg, r) && |r.mem| == |st.mem|
  {
    match step
    case StoreValue(w, t, i, v) => Stores(cfg, st, w, t, i, v)
    case CopyToMirror(w) => Copies(cfg, st, w)
    case RequestSave(w) => Requests(cfg, st, w)
    case StorePlainly(t, i, v) => Puts(cfg, st, t, i, v)
    case RequestAll => st.(tableToSave := st.tableToSave + AllTables(), saveRequested := true)
    case TakeRequests =>
      if st.saveRequested then st.(saveRequested := false, draining := st.tableToSave, tableToSave := {}) else st
    case SaveTable(t) => Saves(cfg, c, st, t, true)
    case SaveFails(t) => Saves(cfg, c, st, t, false)
    case PowerCycle => Restarted(cfg, |st.mem|, st.flash, |st.writers|)
  }

  /** `steps` can happen one after the other, and this is where they lead. */
  predicate Possible(cfg: Config, c: Counter, st: Plant, steps: seq<Step>)
    requires PlantOk(cfg, st) && IsCounter(cfg, c)
    decreases |steps|
  {
    steps != [] ==>
      Enabled(cfg, st, steps[0]) && Possible(cfg, c, Next(cfg, c, st, steps[0]), steps[1..])
  }

  function After(cfg: Config, c: Counter, st: Plant, steps: seq<Step>): (r: Plant)
    requires PlantOk(cfg, st) && IsCounter(cfg, c) && Possible(cfg, c, st, steps)
    ensures PlantOk(cfg, r) && |r.mem| == |st.mem|
    decreases |steps|
  {
    if steps == [] then st else After(cfg, c, Next(cfg, c, st, steps[0]), steps[1..])
  }
}
