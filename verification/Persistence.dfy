/**
  Mirrors and flash as the firmware handles them (main/mirror_storage.c, the save loop of
  main/common.c, set_regs_def_values of main/regs_description.c). Every method is proved to do
  what `Boot` and `SaveProtocol` say.
 */
module Persistence {
  import opened Bits
  import opened Memory
  import opened Registers
  import opened WritePath
  import opened Boot
  import opened SaveProtocol

  // ---------------------------------------------------------------- writing registers twice

  /** A second round of values leaves nothing of the first. */
  lemma {:induction false} StoreAllTwice(mem: seq<byte>, regs: seq<Register>, v: seq<seq<byte>>, w: seq<seq<byte>>,
                                         n: nat)
    requires AddressSorted(regs) && n <= |regs| && RegsFit(regs, |mem|) && ValuesFit(regs, v) && ValuesFit(regs, w)
    ensures StoreAll(StoreAll(mem, regs, v, n), regs, w, n) == StoreAll(mem, regs, w, n)
  {
    forall a | 0 <= a < |mem|
      ensures StoreAll(StoreAll(mem, regs, v, n), regs, w, n)[a] == StoreAll(mem, regs, w, n)[a]
    {
      StoreAllByte(StoreAll(mem, regs, v, n), mem, regs, w, n, a);
      StoreAllByte(mem, StoreAll(mem, regs, v, n), regs, w, n, a);
      if !HeldBefore(regs, n, a) {
        StoreAllByteOutside(mem, regs, v, n, a);
      }
    }
  }

  predicate HeldBefore(regs: seq<Register>, n: nat, a: nat)
    requires n <= |regs|
  {
    exists k :: 0 <= k < n && regs[k].Holds(a)
  }

  lemma {:induction false} StoreAllByteOutside(mem: seq<byte>, regs: seq<Register>, v: seq<seq<byte>>, n: nat, a: nat)
    requires n <= |regs| && RegsFit(regs, |mem|) && ValuesFit(regs, v) && a < |mem| && !HeldBefore(regs, n, a)
    ensures StoreAll(mem, regs, v, n)[a] == mem[a]
  {
    if n > 0 {
      assert !regs[n - 1].Holds(a);
      StoreAllByteOutside(mem, regs, v, n - 1, a);
      SpliceAt(StoreAll(mem, regs, v, n - 1), regs[n - 1].address, v[n - 1], a);
    }
  }

  /** A byte that some register holds does not depend on the memory before. */
  lemma {:induction false} StoreAllByte(mem: seq<byte>, other: seq<byte>, regs: seq<Register>, w: seq<seq<byte>>,
                                        n: nat, a: nat)
    requires n <= |regs| && RegsFit(regs, |mem|) && ValuesFit(regs, w) && a < |mem| == |other|
    ensures HeldBefore(regs, n, a) ==> StoreAll(mem, regs, w, n)[a] == StoreAll(other, regs, w, n)[a]
    ensures !HeldBefore(regs, n, a) ==> StoreAll(mem, regs, w, n)[a] == mem[a]
  {
    if HeldBefore(regs, n, a) {
      SpliceAt(StoreAll(mem, regs, w, n - 1), regs[n - 1].address, w[n - 1], a);
      SpliceAt(StoreAll(other, regs, w, n - 1), regs[n - 1].address, w[n - 1], a);
      if !regs[n - 1].Holds(a) {
        StoreAllByte(mem, other, regs, w, n - 1, a);
      }
    } else {
      StoreAllByteOutside(mem, regs, w, n, a);
    }
  }

  /** The values that the registers have in memory. */
  function Currents(regs: seq<Register>, mem: seq<byte>): (v: seq<seq<byte>>)
    requires RegsFit(regs, |mem|)
    ensures ValuesFit(regs, v)
    ensures forall k :: 0 <= k < |regs| ==> v[k] == Current(mem, regs[k])
  {
    seq(|regs|, k requires 0 <= k < |regs| => Current(mem, regs[k]))
  }

  lemma CurrentsOfStoreAll(mem: seq<byte>, regs: seq<Register>, v: seq<seq<byte>>)
    requires AddressSorted(regs) && RegsFit(regs, |mem|) && ValuesFit(regs, v)
    ensures Currents(regs, StoreAll(mem, regs, v, |regs|)) == v
  {
    forall k | 0 <= k < |regs| ensures Currents(regs, StoreAll(mem, regs, v, |regs|))[k] == v[k] {
      StoreAllStores(mem, regs, v, |regs|, k);
    }
  }

  // ------------------------------------------------------------------------------ storage

  class MirrorStorage {
    const cfg: Config
    const mem: array<byte>
    var mirrors: seq<seq<byte>>
    var flash: seq<Flash>

    ghost predicate Valid()
      reads this
    {
      && ConfigOk(cfg, mem.Length)
      && |mirrors| == |flash| == |cfg.tables|
      && forall t :: 0 <= t < |cfg.tables| ==> |mirrors[t]| == cfg.tables[t].bufferSize
    }

    constructor (config: Config, memory: array<byte>, buffers: seq<seq<byte>>, blobs: seq<Flash>)
      requires ConfigOk(config, memory.Length) && |buffers| == |blobs| == |config.tables|
      requires forall t :: 0 <= t < |buffers| ==> |buffers[t]| == config.tables[t].bufferSize
      ensures Valid() && cfg == config && mem == memory && mirrors == buffers && flash == blobs
    {
      cfg, mem, mirrors, flash := config, memory, buffers, blobs;
    }

    /** What is known of one table. */
    lemma TableFits(t: nat)
      requires Valid() && t < |cfg.tables|
      ensures TableOk(cfg.tables[t]) && RegsFit(cfg.tables[t].regs, mem.Length)
      ensures |mirrors[t]| == cfg.tables[t].bufferSize >= 4 && SlotsFit(cfg.tables[t].regs, |mirrors[t]|)
    {
    }

    /** `set_regs_def_values` */
    method SetRegsDefValues(t: nat)
      requires Valid() && t < |cfg.tables|
      modifies mem
      ensures Valid() && TableOk(cfg.tables[t]) && RegsFit(cfg.tables[t].regs, mem.Length)
      ensures mem[..] == StoreAll(old(mem[..]), cfg.tables[t].regs, Defaults(cfg.tables[t].regs), |cfg.tables[t].regs|)
      ensures forall k :: 0 <= k < |cfg.tables[t].regs| ==> HoldsDefault(mem[..], cfg.tables[t].regs[k])
    {
      TableFits(t);
      var regs := cfg.tables[t].regs;
      for i := 0 to |regs|
        invariant mem[..] == StoreAll(old(mem[..]), regs, Defaults(regs), i)
      {
        SetDefault(regs[i]);
      }
      forall k | 0 <= k < |regs| ensures HoldsDefault(mem[..], regs[k]) {
        StoredDefaultsAreHeld(old(mem[..]), regs, Defaults(regs), k);
      }
    }

    /** A saved register takes its slot, another its default. */
    method LoadOne(d: Register, data: seq<byte>)
      requires d.Ok() && d.End() <= mem.Length && (d.saving ==> d.savedAddress + d.Bytes() <= |data|)
      modifies mem
      ensures mem[..] == Splice(old(mem[..]), d.address, if d.saving then Slot(data, d) else d.Default())
    {
      if d.saving {
        CopyIn(mem, d.address, data[d.savedAddress..d.savedAddress + d.Bytes()]);
      } else {
        SetDefault(d);
      }
    }

    /** One register takes its default, or zeros. */
    method SetDefault(d: Register)
      requires d.Ok() && d.End() <= mem.Length
      modifies mem
      ensures mem[..] == Splice(old(mem[..]), d.address, d.Default())
    {
      if d.defaultValue == None {
        CopyIn(mem, d.address, Zeros(d.Bytes()));
      } else {
        CopyIn(mem, d.address, d.defaultValue.value);
      }
    }

    /** `mirror_access_init_buffer` */
    method MirrorAccessInitBuffer(t: nat)
      requires Valid() && t < |cfg.tables|
      modifies this`mirrors
      ensures Valid() && TableOk(cfg.tables[t]) && RegsFit(cfg.tables[t].regs, mem.Length)
      ensures |old(mirrors)[t]| >= 4 && SlotsFit(cfg.tables[t].regs, |old(mirrors)[t]|)
      ensures var regs := cfg.tables[t].regs;
              var slots := StoreSlots(old(mirrors)[t], regs, Currents(regs, mem[..]), |regs|);
              mirrors == old(mirrors)[t := Sealed(cfg, slots)]
    {
      TableFits(t);
      var data := FillSlots(cfg.tables[t].regs, mirrors[t]);
      mirrors := mirrors[t := Sealed(cfg, data)];
    }

    /** The values of the saved registers go to their slots. */
    method FillSlots(regs: seq<Register>, buffer: seq<byte>) returns (data: seq<byte>)
      requires RegsFit(regs, mem.Length) && SlotsFit(regs, |buffer|)
      ensures data == StoreSlots(buffer, regs, Currents(regs, mem[..]), |regs|)
    {
      ghost var values := Currents(regs, mem[..]);
      data := buffer;
      for i := 0 to |regs|
        invariant data == StoreSlots(buffer, regs, values, i)
      {
        if regs[i].saving {
          data := Splice(data, regs[i].savedAddress, Current(mem[..], regs[i]));
        }
      }
    }

    /** `internal_flash_restore_mirror_from_flash` */
    method RestoreMirrorFromFlash(t: nat) returns (ok: bool)
      requires Valid() && t < |cfg.tables|
      modifies this`mirrors
      ensures Valid() && mirrors == old(mirrors)[t := Loaded(old(mirrors)[t], flash[t])]
      ensures ok == Restorable(cfg, cfg.tables[t], flash[t])
      ensures ok ==> mirrors[t] == flash[t].value
    {
      TableFits(t);
      var size := cfg.tables[t].bufferSize;
      mirrors := mirrors[t := Loaded(mirrors[t], flash[t])];
      if flash[t] == None || |flash[t].value| != size {
        return false;
      }
      var data := mirrors[t];
      assert data == flash[t].value;
      ok := data[size - 4..] == cfg.crc32(data[..(size - 4) / 4 * 4]);
    }

    /** The registers of a table are loaded from a restored mirror; where its version register lies. */
    method LoadRegs(t: nat) returns (version: int)
      requires Valid() && t < |cfg.tables|
      modifies mem
      ensures Valid() && TableOk(cfg.tables[t])
      ensures RegsFit(cfg.tables[t].regs, mem.Length) && SlotsFit(cfg.tables[t].regs, |mirrors[t]|)
      ensures var regs := cfg.tables[t].regs;
              mem[..] == StoreAll(old(mem[..]), regs, Loads(regs, mirrors[t]), |regs|)
      ensures version == VersionIndex(cfg.tables[t].regs, |cfg.tables[t].regs|)
    {
      TableFits(t);
      var regs := cfg.tables[t].regs;
      var data := mirrors[t];
      ghost var values := Loads(regs, data);
      version := -1;
      for i := 0 to |regs|
        invariant mem[..] == StoreAll(old(mem[..]), regs, values, i)
        invariant version == VersionIndex(regs, i)
      {
        LoadOne(regs[i], data);
        if regs[i].isVersion {
          version := i;
        }
      }
    }

    /** Both fall-backs of the start: defaults in memory, and a mirror made from them. */
    method FallBack(t: nat)
      requires Valid() && t < |cfg.tables|
      modifies this`mirrors, mem
      ensures Valid() && TableOk(cfg.tables[t]) && RegsFit(cfg.tables[t].regs, mem.Length)
      ensures |old(mirrors)[t]| >= 4 && SlotsFit(cfg.tables[t].regs, |old(mirrors)[t]|)
      ensures var regs := cfg.tables[t].regs;
              && mem[..] == StoreAll(old(mem[..]), regs, Defaults(regs), |regs|)
              && mirrors == old(mirrors)[t := Sealed(cfg, StoreSlots(old(mirrors)[t], regs, Defaults(regs), |regs|))]
    {
      SetRegsDefValues(t);
      CurrentsOfStoreAll(old(mem[..]), cfg.tables[t].regs, Defaults(cfg.tables[t].regs));
      MirrorAccessInitBuffer(t);
    }

    /** A restored mirror is loaded; with another version in it the defaults come back. */
    method UseRestored(t: nat)
      requires Valid() && t < |cfg.tables|
      modifies this`mirrors, mem
      ensures Valid() && TableOk(cfg.tables[t]) && RegsFit(cfg.tables[t].regs, mem.Length)
      ensures |old(mirrors)[t]| == cfg.tables[t].bufferSize >= 4 && SlotsFit(cfg.tables[t].regs, |old(mirrors)[t]|)
      ensures VersionMatches(cfg.tables[t], old(mirrors)[t]) ==>
                var regs := cfg.tables[t].regs;
                && mem[..] == StoreAll(old(mem[..]), regs, Loads(regs, old(mirrors)[t]), |regs|)
                && mirrors == old(mirrors)
      ensures !VersionMatches(cfg.tables[t], old(mirrors)[t]) ==>
                var regs := cfg.tables[t].regs;
                && mem[..] == StoreAll(old(mem[..]), regs, Defaults(regs), |regs|)
                && mirrors == old(mirrors)[t := Sealed(cfg, StoreSlots(old(mirrors)[t], regs, Defaults(regs), |regs|))]
    {
      ghost var before := mem[..];
      var regs := cfg.tables[t].regs;
      var version := LoadRegs(t);
      if version >= 0 {
        ghost var loads := Loads(regs, mirrors[t]);
        StoreAllStores(before, regs, loads, |regs|, version);
        if Current(mem[..], regs[version]) != cfg.tables[t].version {
          StoreAllTwice(before, regs, loads, Defaults(regs), |regs|);
          FallBack(t);
        }
      }
    }

    /** What a started table does not take from its blob is a default. */
    lemma StartedHoldsDefaults(before: seq<byte>, t: nat)
      requires Valid() && t < |cfg.tables| && |before| == mem.Length
      ensures TableOk(cfg.tables[t]) && RegsFit(cfg.tables[t].regs, mem.Length)
      ensures var regs := cfg.tables[t].regs;
              var after := StoreAll(before, regs, BootValues(cfg, cfg.tables[t], flash[t]), |regs|);
              forall k :: 0 <= k < |regs| ==>
                !(regs[k].saving && Restores(cfg, cfg.tables[t], flash[t])) ==> HoldsDefault(after, regs[k])
    {
      TableFits(t);
      var regs, values := cfg.tables[t].regs, BootValues(cfg, cfg.tables[t], flash[t]);
      forall k | 0 <= k < |regs| && !(regs[k].saving && Restores(cfg, cfg.tables[t], flash[t]))
        ensures HoldsDefault(StoreAll(before, regs, values, |regs|), regs[k])
      {
        StoredDefaultsAreHeld(before, regs, values, k);
      }
    }

    /** `preinit_table_vars` */
    method PreinitTableVars(t: nat)
      requires Valid() && t < |cfg.tables|
      modifies this`mirrors, mem
      ensures Valid() && TableOk(cfg.tables[t]) && RegsFit(cfg.tables[t].regs, mem.Length)
      ensures |old(mirrors)[t]| == cfg.tables[t].bufferSize
      ensures var regs := cfg.tables[t].regs;
              mem[..] == StoreAll(old(mem[..]), regs, BootValues(cfg, cfg.tables[t], flash[t]), |regs|)
      ensures mirrors == old(mirrors)[t := BootMirror(cfg, cfg.tables[t], old(mirrors)[t], flash[t])]
      ensures forall k :: 0 <= k < |cfg.tables[t].regs| ==>
                !(cfg.tables[t].regs[k].saving && Restores(cfg, cfg.tables[t], flash[t])) ==>
                  HoldsDefault(mem[..], cfg.tables[t].regs[k])
    {
      TableFits(t);
      var ok := RestoreMirrorFromFlash(t);
      if ok {
        UseRestored(t);
      } else {
        FallBack(t);
      }
      StartedHoldsDefaults(old(mem[..]), t);
    }

    /** The first `n` tables have been started, the others not. */
    ghost predicate Started(n: nat)
      requires Valid() && n <= |cfg.tables|
      reads this, mem
    {
      && mem[..] == BootMem(cfg, mem.Length, StartValues(cfg, mem.Length, flash), n)
      && (forall u :: 0 <= u < n ==> mirrors[u] == RestartMirror(cfg, mem.Length, flash[u], u))
      && (forall u :: n <= u < |cfg.tables| ==> mirrors[u] == Zeros(cfg.tables[u].bufferSize))
    }

    method StartNext(t: nat)
      requires Valid() && t < |cfg.tables| && Started(t)
      modifies this`mirrors, mem
      ensures Valid() && Started(t + 1)
    {
      ghost var values := StartValues(cfg, mem.Length, flash);
      assert values[t] == BootValues(cfg, cfg.tables[t], flash[t]);
      PreinitTableVars(t);
    }

    /** `regs_init` and the tasks start their tables in the order in which these were added. */
    method StartAll()
      requires Valid() && mem[..] == Zeros(mem.Length)
      requires forall t :: 0 <= t < |cfg.tables| ==> mirrors[t] == Zeros(cfg.tables[t].bufferSize)
      modifies this`mirrors, mem
      ensures Valid() && mem[..] == RestartMem(cfg, mem.Length, flash)
      ensures mirrors == RestartMirrors(cfg, mem.Length, flash)
    {
      for t := 0 to |cfg.tables|
        invariant Valid() && Started(t)
      {
        StartNext(t);
      }
    }
  }

  // ------------------------------------------------------------------------- the duty task

  /** The part of `common_duty_task` that saves tables. */
  class DutyTask {
    const cfg: Config
    const counter: Counter
    const mem: array<byte>
    var mirrors: seq<seq<byte>>
    var flash: seq<Flash>
    var tableToSave: nat
    var saveRequested: bool

    /** The plant, while the tables in `draining` are still to be saved. */
    ghost function Value(draining: set<nat>): Plant
      reads this, mem
    {
      Plant(mem[..], mirrors, SetBits(tableToSave), saveRequested, flash, [], draining)
    }

    ghost predicate Valid()
      reads this, mem
    {
      PlantOk(cfg, Value({})) && IsCounter(cfg, counter) && tableToSave < Pow2(32)
    }

    /** The duty task of a plant with nothing requested. */
    constructor (config: Config, c: Counter, memory: array<byte>, buffers: seq<seq<byte>>, blobs: seq<Flash>)
      requires PlantOk(config, Plant(memory[..], buffers, {}, false, blobs, [], {})) && IsCounter(config, c)
      ensures Valid() && cfg == config && counter == c && mem == memory
      ensures Value({}) == Plant(memory[..], buffers, {}, false, blobs, [], {})
    {
      cfg, counter, mem, mirrors, flash := config, c, memory, buffers, blobs;
      tableToSave, saveRequested := 0, false;
      new;
      SetBitsNone();
    }

    /** `flash_write_number` counts a save. */
    method CountWrite()
      requires Valid()
      modifies mem
      ensures Reg(cfg, counter.table, counter.index).End() <= mem.Length
      ensures mem[..] == Splice(old(mem[..]), Reg(cfg, counter.table, counter.index).address,
                                Incremented(Current(old(mem[..]), Reg(cfg, counter.table, counter.index))))
    {
      var d := cfg.tables[counter.table].regs[counter.index];
      RegOk(cfg, mem.Length, counter.table, counter.index);
      ghost var before := mem[..];
      var count := Memory.Value(mem[d.address..d.address + 4]);
      var bytes := Encoded(if count < 0xffffffff then count + 1 else count, 4);
      assert bytes == Incremented(Current(before, d));
      CopyIn(mem, d.address, bytes);
    }

    /** `internal_flash_save_mirror_to_flash`; `commits` says whether NVS takes the blob. */
    method SaveMirrorToFlash(t: nat, commits: bool, ghost draining: set<nat>)
      requires Valid()
      modifies this`flash, mem
      ensures Valid() && Value(draining - {t}) == Saves(cfg, counter, old(Value(draining)), t, commits)
    {
      if t < |cfg.tables| {
        CountWrite();
        if flash[t] != Some(mirrors[t]) && commits {
          flash := flash[t := Some(mirrors[t])];
        }
        assert flash == if commits then old(flash)[t := Some(mirrors[t])] else old(flash);
      }
    }

    /** What the sleep task does before a deep sleep (main/sleep_control.c:98-101): all tables are requested. */
    method RequestAllTables()
      requires Valid()
      modifies this`tableToSave, this`saveRequested
      ensures Valid() && Value({}) == Next(cfg, counter, old(Value({})), RequestAll)
    {
      AllBits();
      tableToSave := 0xffffffff;
      saveRequested := true;
    }

    /** Grabbing the requests. */
    method TakeOver() returns (local: nat)
      requires Valid()
      modifies this`tableToSave, this`saveRequested
      ensures Valid() && local < Pow2(32)
      ensures Value(SetBits(local)) == Next(cfg, counter, old(Value({})), TakeRequests)
      ensures !saveRequested && local == if old(saveRequested) then old(tableToSave) else 0
    {
      local := 0;
      SetBitsNone();
      if saveRequested {
        saveRequested := false;
        local := tableToSave;
        tableToSave := 0;
      }
    }

    /** The tables of the local copy are saved, lowest number first; a failed save is passed over. */
    method SaveAll(mask: nat, commits: nat -> bool)
      requires Valid() && mask < Pow2(32)
      modifies this`flash, mem
      ensures Valid() && Value({}) == Drained(cfg, counter, old(Value(SetBits(mask))), mask, commits)
    {
      var local: nat := mask;
      ghost var goal := Drained(cfg, counter, Value(SetBits(mask)), mask, commits);
      while local != 0
        invariant Valid() && local < Pow2(32)
        invariant Drained(cfg, counter, Value(SetBits(local)), local, commits) == goal
        decreases local
      {
        SetBitsClear(local);
        var t := TrailingZeros(local);
        SaveMirrorToFlash(t, commits(t), SetBits(local));
        local := And(local, local - 1);
      }
      SetBitsNone();
    }

    /** The requests are taken over and their tables saved. */
    method SaveRequested(commits: nat -> bool)
      requires Valid()
      modifies this, mem
      ensures Valid() && !saveRequested
      ensures Value({}) == Drained(cfg, counter, Next(cfg, counter, old(Value({})), TakeRequests),
                                   if old(saveRequested) then old(tableToSave) else 0, commits)
    {
      var local := TakeOver();
      SaveAll(local, commits);
    }
  }

  lemma AllBits()
    ensures 0xffffffff < Pow2(32) && SetBits(0xffffffff) == AllTables()
  {
    assert Pow2(8) == 256;
    assert Pow2(16) == 65536;
    assert Pow2(24) == 0x1000000;
    assert Pow2(32) == 0x100000000;
    forall i | 0 <= i < 32 ensures i in SetBits(0xffffffff) && i in AllTables() {
      OnesDigit(32, i);
      assert HasBit(i);
    }
  }

  /** The plant after the tables in `mask` were saved, or not, lowest number first. */
  function Drained(cfg: Config, c: Counter, st: Plant, mask: nat, commits: nat -> bool): (r: Plant)
    requires PlantOk(cfg, st) && IsCounter(cfg, c)
    decreases mask
  {
    if mask == 0 then st
    else
      ClearLowest(mask, 0);
      var t := TrailingZeros(mask);
      Drained(cfg, c, Saves(cfg, c, st, t, commits(t)), And(mask, mask - 1), commits)
  }

  /** The steps that bring this about. */
  function SavesOf(mask: nat, commits: nat -> bool): (steps: seq<Step>)
    decreases mask
  {
    if mask == 0 then []
    else
      ClearLowest(mask, 0);
      var t := TrailingZeros(mask);
      [if commits(t) then SaveTable(t) else SaveFails(t)] + SavesOf(And(mask, mask - 1), commits)
  }

  /** The loop is a run of the protocol that leaves nothing to save. */
  lemma {:induction false} DrainedIsRun(cfg: Config, c: Counter, st: Plant, mask: nat, commits: nat -> bool)
    requires PlantOk(cfg, st) && IsCounter(cfg, c) && mask < Pow2(32) && st.draining == SetBits(mask)
    ensures Possible(cfg, c, st, SavesOf(mask, commits))
    ensures After(cfg, c, st, SavesOf(mask, commits)) == Drained(cfg, c, st, mask, commits)
    ensures Drained(cfg, c, st, mask, commits).draining == {}
    decreases mask
  {
    if mask == 0 {
      SetBitsNone();
    } else {
      SetBitsClear(mask);
      var t, rest := TrailingZeros(mask), And(mask, mask - 1);
      var step := if commits(t) then SaveTable(t) else SaveFails(t);
      assert SavesOf(mask, commits)[1..] == SavesOf(rest, commits);
      DrainedIsRun(cfg, c, Next(cfg, c, st, step), rest, commits);
    }
  }
}
