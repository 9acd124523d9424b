/**
  Start-up of a table (main/mirror_storage.c:243-325 and main/regs_description.c:557-576):
  restore the mirror from flash, check it, and load the registers from it or from their
  defaults.
 */
module Boot {
  import opened Bits
  import opened Memory
  import opened Registers
  import opened WritePath

  // --------------------------------------------------------------- writing all registers

  predicate RegsFit(regs: seq<Register>, memSize: nat) {
    forall k :: 0 <= k < |regs| ==> regs[k].End() <= memSize
  }

  predicate ValuesFit(regs: seq<Register>, values: seq<seq<byte>>) {
    |values| == |regs| && forall k :: 0 <= k < |regs| ==> |values[k]| == regs[k].Bytes()
  }

  /** The first `n` registers take their values, one after the other. */
  function StoreAll(mem: seq<byte>, regs: seq<Register>, values: seq<seq<byte>>, n: nat): (r: seq<byte>)
    requires n <= |regs| && RegsFit(regs, |mem|) && ValuesFit(regs, values)
    ensures |r| == |mem|
  {
    if n == 0 then mem
    else Splice(StoreAll(mem, regs, values, n - 1), regs[n - 1].address, values[n - 1])
  }

  predicate SlotsFit(regs: seq<Register>, size: nat) {
    forall k :: 0 <= k < |regs| && regs[k].saving ==> regs[k].savedAddress + regs[k].Bytes() <= size
  }

  /** The slots of the saved ones among the first `n` registers take their values. */
  function StoreSlots(m: seq<byte>, regs: seq<Register>, values: seq<seq<byte>>, n: nat): (r: seq<byte>)
    requires n <= |regs| && SlotsFit(regs, |m|) && ValuesFit(regs, values)
    ensures |r| == |m|
  {
    if n == 0 then m
    else
      var before := StoreSlots(m, regs, values, n - 1);
      if regs[n - 1].saving then Splice(before, regs[n - 1].savedAddress, values[n - 1]) else before
  }

  lemma {:induction false} StoreAllOutside(mem: seq<byte>, regs: seq<Register>, values: seq<seq<byte>>, n: nat, p: nat,
                                           len: nat)
    requires n <= |regs| && RegsFit(regs, |mem|) && ValuesFit(regs, values) && p + len <= |mem|
    requires forall k :: 0 <= k < n ==> Disjoint(regs[k].address, regs[k].Bytes(), p, len)
    ensures Slice(StoreAll(mem, regs, values, n), p, len) == Slice(mem, p, len)
  {
    if n > 0 {
      StoreAllOutside(mem, regs, values, n - 1, p, len);
      SliceOutsideSplice(StoreAll(mem, regs, values, n - 1), regs[n - 1].address, values[n - 1], p, len);
    }
  }

  /** Afterwards every register holds its value. */
  lemma {:induction false} StoreAllStores(mem: seq<byte>, regs: seq<Register>, values: seq<seq<byte>>, n: nat, k: nat)
    requires AddressSorted(regs)
    requires k < n <= |regs| && RegsFit(regs, |mem|) && ValuesFit(regs, values)
    ensures Current(StoreAll(mem, regs, values, n), regs[k]) == values[k]
  {
    var before := StoreAll(mem, regs, values, n - 1);
    if k == n - 1 {
      SliceOfSplice(before, regs[k].address, values[k]);
    } else {
      StoreAllStores(mem, regs, values, n - 1, k);
      SliceOutsideSplice(before, regs[n - 1].address, values[n - 1], regs[k].address, regs[k].Bytes());
    }
  }

  lemma {:induction false} StoreSlotsStores(m: seq<byte>, regs: seq<Register>, values: seq<seq<byte>>, n: nat, k: nat)
    requires SlotsOk(regs, |m|)
    requires k < n <= |regs| && SlotsFit(regs, |m|) && ValuesFit(regs, values) && regs[k].saving
    ensures Slot(StoreSlots(m, regs, values, n), regs[k]) == values[k]
  {
    var before := StoreSlots(m, regs, values, n - 1);
    if k == n - 1 {
      SliceOfSplice(before, regs[k].savedAddress, values[k]);
    } else {
      StoreSlotsStores(m, regs, values, n - 1, k);
      if regs[n - 1].saving {
        SliceOutsideSplice(before, regs[n - 1].savedAddress, values[n - 1], regs[k].savedAddress, regs[k].Bytes());
      }
    }
  }

  // ---------------------------------------------------------------------- restoring

  type Flash = Option<seq<byte>>

  /** The buffer after `nvs_get_blob`: a shorter blob fills its beginning, a longer one nothing. */
  function Loaded(buffer: seq<byte>, flash: Flash): (r: seq<byte>)
    ensures |r| == |buffer|
  {
    if flash.Some? && |flash.value| <= |buffer| then flash.value + buffer[|flash.value|..] else buffer
  }

  /** `internal_flash_restore_mirror_from_flash` succeeds: the right size and a valid checksum. */
  predicate Restorable(cfg: Config, table: Table, flash: Flash) {
    flash.Some? && |flash.value| == table.bufferSize && |flash.value| >= 4 && CrcValid(cfg, flash.value)
  }

  function Defaults(regs: seq<Register>): (v: seq<seq<byte>>)
    requires forall k :: 0 <= k < |regs| ==> regs[k].Ok()
    ensures ValuesFit(regs, v)
    ensures forall k :: 0 <= k < |regs| ==> v[k] == regs[k].Default()
  {
    seq(|regs|, k requires 0 <= k < |regs| => regs[k].Default())
  }

  /** Memory holds what a register's `p_default` points to, or zeros where that is NULL. */
  predicate HoldsDefault(mem: seq<byte>, d: Register) {
    && d.address + d.Bytes() <= |mem|
    && match d.defaultValue
       case Some(v) => mem[d.address..d.address + d.Bytes()] == v
       case None => forall a :: d.address <= a < d.address + d.Bytes() ==> mem[a] == 0
  }

  lemma DefaultIsHeld(mem: seq<byte>, d: Register)
    requires d.Ok() && d.End() <= |mem| && Current(mem, d) == d.Default()
    ensures HoldsDefault(mem, d)
  {
    forall a | d.address <= a < d.End() ensures Current(mem, d)[a - d.address] == mem[a] {
    }
  }

  /** Stored defaults are held. */
  lemma StoredDefaultsAreHeld(mem: seq<byte>, regs: seq<Register>, values: seq<seq<byte>>, k: nat)
    requires AddressSorted(regs) && RegsFit(regs, |mem|) && ValuesFit(regs, values)
    requires k < |regs| && regs[k].Ok() && values[k] == regs[k].Default()
    ensures HoldsDefault(StoreAll(mem, regs, values, |regs|), regs[k])
  {
    StoreAllStores(mem, regs, values, |regs|, k);
    DefaultIsHeld(StoreAll(mem, regs, values, |regs|), regs[k]);
  }

  /** What the registers load from a mirror: saved ones their slots, the others their defaults. */
  function Loads(regs: seq<Register>, m: seq<byte>): (v: seq<seq<byte>>)
    requires (forall k :: 0 <= k < |regs| ==> regs[k].Ok()) && SlotsFit(regs, |m|)
    ensures ValuesFit(regs, v)
    ensures forall k :: 0 <= k < |regs| ==> v[k] == if regs[k].saving then Slot(m, regs[k]) else regs[k].Default()
  {
    seq(|regs|, k requires 0 <= k < |regs| => if regs[k].saving then Slot(m, regs[k]) else regs[k].Default())
  }

  /** The last of the first `n` registers that is named `table_version`, or -1. */
  function VersionIndex(regs: seq<Register>, n: nat): (v: int)
    requires n <= |regs|
    ensures -1 <= v < n && (v >= 0 ==> regs[v].isVersion)
  {
    if n == 0 then -1 else if regs[n - 1].isVersion then n - 1 else VersionIndex(regs, n - 1)
  }

  /** The version that a restored table carries is the current one. */
  predicate VersionMatches(table: Table, m: seq<byte>)
    requires TableOk(table) && |m| == table.bufferSize
  {
    var v := VersionIndex(table.regs, |table.regs|);
    v >= 0 ==> Loads(table.regs, m)[v] == table.version
  }

  /** The saved registers of the table come back from flash. */
  predicate Restores(cfg: Config, table: Table, flash: Flash)
    requires TableOk(table)
  {
    Restorable(cfg, table, flash) && VersionMatches(table, flash.value)
  }

  /** The values of the registers after start-up. */
  function BootValues(cfg: Config, table: Table, flash: Flash): (v: seq<seq<byte>>)
    requires TableOk(table)
    ensures ValuesFit(table.regs, v)
  {
    if Restores(cfg, table, flash) then Loads(table.regs, flash.value) else Defaults(table.regs)
  }

  /** The mirror after start-up, when the buffer held `buffer` before. */
  function BootMirror(cfg: Config, table: Table, buffer: seq<byte>, flash: Flash): (m: seq<byte>)
    requires TableOk(table) && |buffer| == table.bufferSize
    ensures |m| == table.bufferSize
  {
    if Restores(cfg, table, flash) then flash.value
    else Sealed(cfg, StoreSlots(Loaded(buffer, flash), table.regs, Defaults(table.regs), |table.regs|))
  }

  /** A sealed mirror keeps its slots. */
  lemma SealedSlot(cfg: Config, m: seq<byte>, d: Register)
    requires |m| >= 4 && d.savedAddress + d.Bytes() <= |m| - 4
    ensures Slot(Sealed(cfg, m), d) == Slot(m, d)
  {
    SealedIsValid(cfg, m);
    SliceOfPrefix(Sealed(cfg, m), |m| - 4, d.savedAddress, d.Bytes());
    SliceOfPrefix(m, |m| - 4, d.savedAddress, d.Bytes());
  }

  /**
    After start-up a table is consistent: its registers hold either all saved values of one
    valid blob of the current version and defaults otherwise, or defaults throughout; every
    saved register equals its slot; the checksum of the mirror is valid.
   */
  lemma BootConsistent(cfg: Config, table: Table, buffer: seq<byte>, flash: Flash, k: nat)
    requires TableOk(table) && |buffer| == table.bufferSize && k < |table.regs|
    ensures var d := table.regs[k];
            && d.Ok()
            && BootValues(cfg, table, flash)[k] ==
               (if Restores(cfg, table, flash) && d.saving then Slot(flash.value, d) else d.Default())
            && (d.saving ==> d.savedAddress + d.Bytes() <= |buffer|
                             && Slot(BootMirror(cfg, table, buffer, flash), d) == BootValues(cfg, table, flash)[k])
    ensures |buffer| >= 4 && CrcValid(cfg, BootMirror(cfg, table, buffer, flash))
  {
    var d := table.regs[k];
    if !Restores(cfg, table, flash) {
      var slots := StoreSlots(Loaded(buffer, flash), table.regs, Defaults(table.regs), |table.regs|);
      SealedIsValid(cfg, slots);
      if d.saving {
        StoreSlotsStores(Loaded(buffer, flash), table.regs, Defaults(table.regs), |table.regs|, k);
        SealedSlot(cfg, slots, d);
      }
    }
  }

  /** A mirror that carries the current version and a valid checksum survives a save and a restart. */
  lemma SavedMirrorRestores(cfg: Config, table: Table, m: seq<byte>, buffer: seq<byte>)
    requires TableOk(table) && |m| == |buffer| == table.bufferSize
    requires CrcValid(cfg, m) && VersionMatches(table, m)
    ensures Restores(cfg, table, Some(m)) && BootMirror(cfg, table, buffer, Some(m)) == m
  {
  }

  /**
    After a fall-back the mirror carries the version register's default, which the next start
    accepts only when it is the current version.
   */
  lemma NoVersionDefaultNoRestore(cfg: Config, table: Table, buffer: seq<byte>, flash: Flash)
    requires TableOk(table) && |buffer| == table.bufferSize
    requires VersionIndex(table.regs, |table.regs|) >= 0
    requires !Restores(cfg, table, flash)
    ensures VersionMatches(table, BootMirror(cfg, table, buffer, flash))
       <==> table.regs[VersionIndex(table.regs, |table.regs|)].Default() == table.version
  {
    var v := VersionIndex(table.regs, |table.regs|);
    BootConsistent(cfg, table, buffer, flash, v);
  }

  // --------------------------------------------------------------- checksum coverage

  /** Damage behind the last whole word before the checksum goes unnoticed. */
  lemma UncoveredByteUnnoticed(cfg: Config, m: seq<byte>, k: nat, b: byte)
    requires |m| >= 4 && CoveredBytes(|m|) <= k < |m| - 4
    ensures CrcValid(cfg, m[k := b]) <==> CrcValid(cfg, m)
  {
    assert m[k := b][..CoveredBytes(|m|)] == m[..CoveredBytes(|m|)];
    assert m[k := b][|m| - 4..] == m[|m| - 4..];
  }

  /** All saved bytes are covered exactly when the buffer is a whole number of words. */
  lemma CoverageExact(size: nat)
    requires size >= 4
    ensures CoveredBytes(size) == size - 4 <==> size % 4 == 0
    ensures size - 4 - CoveredBytes(size) <= 3
  {
  }
}
