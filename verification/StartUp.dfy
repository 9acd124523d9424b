/**
  What a start leaves in memory (main/mirror_storage.c:243-325, main/regs_description.c:557-576),
  register by register: which blobs are accepted, what is taken from them, and what the registers
  hold otherwise.
 */
module StartUp {
  import opened Bits
  import opened Memory
  import opened Registers
  import opened WritePath
  import opened Boot
  import opened SaveProtocol
  import opened SaveLaws

  /** Register `v` is the last one of its table that is named `table_version`. */
  predicate IsLastVersion(regs: seq<Register>, v: nat) {
    v < |regs| && regs[v].isVersion && forall w :: v < w < |regs| ==> !regs[w].isVersion
  }

  lemma {:induction false} VersionIndexIsLast(regs: seq<Register>, n: nat, v: nat)
    requires n <= |regs| && v < n && regs[v].isVersion && forall w :: v < w < n ==> !regs[w].isVersion
    ensures VersionIndex(regs, n) == v
  {
    if v < n - 1 {
      VersionIndexIsLast(regs, n - 1, v);
    }
  }

  lemma {:induction false} LastVersionExists(regs: seq<Register>, n: nat)
    requires n <= |regs|
    ensures var v := VersionIndex(regs, n);
            if v < 0 then forall w :: 0 <= w < n ==> !regs[w].isVersion
            else regs[v].isVersion && forall w :: v < w < n ==> !regs[w].isVersion
  {
    if n > 0 && !regs[n - 1].isVersion {
      LastVersionExists(regs, n - 1);
    }
  }

  /** Before the last four bytes lies a whole number of words and up to three more bytes. */
  predicate WordsCovered(m: seq<byte>, n: nat) {
    n <= |m| - 4 && n % 4 == 0 && |m| - 4 - n < 4
  }

  /** The version that a start reads after loading `blob`: a slot of it, or a default. */
  predicate CarriesVersion(blob: seq<byte>, d: Register, version: seq<byte>) {
    if d.saving then d.savedAddress + 4 <= |blob| && blob[d.savedAddress..d.savedAddress + 4] == version
    else match d.defaultValue
      case Some(v) => v == version
      case None => version == [0, 0, 0, 0]
  }

  /**
    What a start accepts: a blob as long as the table's buffer whose last four bytes are the
    checksum of the whole words before them and which leaves the current version in the last
    version register.
   */
  ghost predicate Accepted(cfg: Config, table: Table, blob: seq<byte>) {
    && 4 <= |blob| == table.bufferSize
    && (exists n: nat :: WordsCovered(blob, n) && blob[|blob| - 4..] == cfg.crc32(blob[..n]))
    && forall v: nat :: IsLastVersion(table.regs, v) ==> CarriesVersion(blob, table.regs[v], table.version)
  }

  lemma VersionIsCarried(table: Table, blob: seq<byte>, v: nat)
    requires TableOk(table) && |blob| == table.bufferSize && v < |table.regs| && table.regs[v].isVersion
    ensures SlotsFit(table.regs, |blob|)
    ensures Loads(table.regs, blob)[v] == table.version <==> CarriesVersion(blob, table.regs[v], table.version)
  {
    assert table.regs[v].Ok();
    assert Zeros(4) == [0, 0, 0, 0];
  }

  lemma CoverageIsWords(cfg: Config, m: seq<byte>)
    requires |m| >= 4
    ensures CrcValid(cfg, m) <==> exists n: nat :: WordsCovered(m, n) && m[|m| - 4..] == cfg.crc32(m[..n])
  {
    assert WordsCovered(m, CoveredBytes(|m|));
    forall n: nat | WordsCovered(m, n) ensures n == CoveredBytes(|m|) {
    }
  }

  lemma VersionDecides(table: Table, blob: seq<byte>)
    requires TableOk(table) && |blob| == table.bufferSize
    ensures VersionMatches(table, blob) <==>
            forall v: nat :: IsLastVersion(table.regs, v) ==> CarriesVersion(blob, table.regs[v], table.version)
  {
    var last := VersionIndex(table.regs, |table.regs|);
    LastVersionExists(table.regs, |table.regs|);
    forall v: nat | IsLastVersion(table.regs, v) ensures v == last {
      VersionIndexIsLast(table.regs, |table.regs|, v);
    }
    if last >= 0 {
      VersionIsCarried(table, blob, last);
      assert IsLastVersion(table.regs, last);
    }
  }

  /** A start takes the saved registers of a table from its blob exactly when the blob is accepted. */
  lemma RestoresExactly(cfg: Config, table: Table, flash: Flash)
    requires TableOk(table)
    ensures Restores(cfg, table, flash) <==> flash.Some? && Accepted(cfg, table, flash.value)
  {
    if flash.Some? && |flash.value| == table.bufferSize {
      CoverageIsWords(cfg, flash.value);
      VersionDecides(table, flash.value);
    }
  }

  /**
    Every register after a start, whatever the flash holds: a saved one of a table whose blob is
    accepted has the bytes of its slot in the blob, every other one its default.
   */
  lemma StartExactly(cfg: Config, memSize: nat, flash: seq<Flash>, t: nat, i: nat)
    requires ConfigOk(cfg, memSize) && |flash| == |cfg.tables| && IsReg(cfg, t, i)
    ensures var d, mem, blob := Reg(cfg, t, i), RestartMem(cfg, memSize, flash), flash[t];
            if d.saving && blob.Some? && Accepted(cfg, cfg.tables[t], blob.value) then
              && d.End() <= |mem| && d.savedAddress + d.Bytes() <= |blob.value|
              && mem[d.address..d.End()] == blob.value[d.savedAddress..d.savedAddress + d.Bytes()]
            else HoldsDefault(mem, d)
  {
    var d, mem := Reg(cfg, t, i), RestartMem(cfg, memSize, flash);
    RestartHolds(cfg, memSize, flash, t, i);
    RegOk(cfg, memSize, t, i);
    RestoresExactly(cfg, cfg.tables[t], flash[t]);
    if !(d.saving && Restores(cfg, cfg.tables[t], flash[t])) {
      DefaultIsHeld(mem, d);
    }
  }

  // ------------------------------------------------------------------------ the mirror

  /** Byte `k` of a mirror belongs to the slot of a saved register. */
  predicate InSlot(regs: seq<Register>, n: nat, k: nat)
    requires n <= |regs|
  {
    exists i :: 0 <= i < n && regs[i].saving && regs[i].savedAddress <= k < regs[i].savedAddress + regs[i].Bytes()
  }

  lemma {:induction false} StoreSlotsOutside(m: seq<byte>, regs: seq<Register>, values: seq<seq<byte>>, n: nat, k: nat)
    requires n <= |regs| && SlotsFit(regs, |m|) && ValuesFit(regs, values) && k < |m| && !InSlot(regs, n, k)
    ensures StoreSlots(m, regs, values, n)[k] == m[k]
  {
    if n > 0 {
      assert !InSlot(regs, n - 1, k) by {
        assert InSlot(regs, n - 1, k) ==> InSlot(regs, n, k);
      }
      StoreSlotsOutside(m, regs, values, n - 1, k);
      if regs[n - 1].saving {
        SpliceAt(StoreSlots(m, regs, values, n - 1), regs[n - 1].savedAddress, values[n - 1], k);
      }
    }
  }

  /**
    What a blob that is not accepted leaves in the mirror: where it is no longer than the buffer, its
    bytes between the slots; the next save carries them on. Otherwise there are zeros.
   */
  lemma RejectedBlobRemains(cfg: Config, memSize: nat, flash: Flash, t: nat, k: nat)
    requires ConfigOk(cfg, memSize) && t < |cfg.tables| && !(flash.Some? && Accepted(cfg, cfg.tables[t], flash.value))
    requires k + 4 < cfg.tables[t].bufferSize && !InSlot(cfg.tables[t].regs, |cfg.tables[t].regs|, k)
    ensures RestartMirror(cfg, memSize, flash, t)[k] ==
            if flash.Some? && k < |flash.value| <= cfg.tables[t].bufferSize then flash.value[k] else 0
  {
    var table := cfg.tables[t];
    assert TableOk(table);
    RestoresExactly(cfg, table, flash);
    var buffer, values := Zeros(table.bufferSize), Defaults(table.regs);
    var slots := StoreSlots(Loaded(buffer, flash), table.regs, values, |table.regs|);
    StoreSlotsOutside(Loaded(buffer, flash), table.regs, values, |table.regs|, k);
    SealedIsValid(cfg, slots);
    assert Sealed(cfg, slots)[..|slots| - 4][k] == slots[..|slots| - 4][k];
  }
}
