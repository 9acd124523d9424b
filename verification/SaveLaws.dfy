/**
  What the save protocol guarantees: no save is lost, but for those that fail and for stores that
  nobody copies.
 */
module SaveLaws {
  import opened Bits
  import opened Memory
  import opened Registers
  import opened WritePath
  import opened WriteLaws
  import opened Boot
  import opened SaveProtocol

  /** The register `table_version` of a table, if it has one, has the current version as default. */
  predicate VersionDefaulted(cfg: Config, memSize: nat, t: nat)
    requires ConfigOk(cfg, memSize) && t < |cfg.tables|
  {
    assert TableOk(cfg.tables[t]);
    var v := VersionIndex(cfg.tables[t].regs, |cfg.tables[t].regs|);
    v >= 0 ==> Reg(cfg, t, v).Default() == cfg.tables[t].version
  }

  /** What persistence asks of a table: a default that is the current version, or a blob that a start accepts. */
  predicate Persistent(cfg: Config, memSize: nat, flash: Flash, t: nat)
    requires ConfigOk(cfg, memSize) && t < |cfg.tables|
  {
    assert TableOk(cfg.tables[t]);
    VersionDefaulted(cfg, memSize, t) || Restores(cfg, cfg.tables[t], flash)
  }

  /** The version register of a table holds the current version in memory. */
  predicate VersionCurrent(cfg: Config, mem: seq<byte>, t: nat)
    requires ConfigOk(cfg, |mem|) && t < |cfg.tables|
  {
    var v := VersionIndex(cfg.tables[t].regs, |cfg.tables[t].regs|);
    v >= 0 ==>
      (RegOk(cfg, |mem|, t, v); Current(mem, Reg(cfg, t, v)) == cfg.tables[t].version)
  }

  /** A mirror that, once saved, would be accepted at the next start. */
  predicate MirrorSound(cfg: Config, st: Plant, t: nat)
    requires PlantOk(cfg, st) && t < |cfg.tables|
  {
    assert TableOk(cfg.tables[t]);
    CrcValid(cfg, st.mirrors[t]) && VersionMatches(cfg.tables[t], st.mirrors[t])
  }

  /** Table `t` survives saves and starts. */
  predicate TableSound(cfg: Config, st: Plant, t: nat)
    requires PlantOk(cfg, st) && t < |cfg.tables|
  {
    Persistent(cfg, |st.mem|, st.flash[t], t) && VersionCurrent(cfg, st.mem, t) && MirrorSound(cfg, st, t)
  }

  /** Someone still has to save table `t`. */
  predicate SaveDue(st: Plant, t: nat) {
    (t in st.tableToSave && st.saveRequested) || t in st.draining || Requesting(t) in st.writers
  }

  /** A mirror that a restart would not bring back is due for saving. */
  predicate Covered(cfg: Config, st: Plant, t: nat)
    requires PlantOk(cfg, st) && t < |cfg.tables|
  {
    st.mirrors[t] != RestartMirror(cfg, |st.mem|, st.flash[t], t) ==> SaveDue(st, t)
  }

  /** A saved register whose memory differs from its slot has a writer about to copy it. */
  predicate Followed(cfg: Config, st: Plant, t: nat, i: nat)
    requires PlantOk(cfg, st) && IsReg(cfg, t, i)
  {
    var d := Reg(cfg, t, i);
    RegOk(cfg, |st.mem|, t, i);
    d.saving && Slot(st.mirrors[t], d) != Current(st.mem, d) ==> Stored(t, i) in st.writers
  }

  /**
    What is not on its way to the flash: registers stored into without a copy, and tables whose
    save failed and which nobody has asked for again.
   */
  datatype Gaps = Gaps(uncopied: set<(nat, nat)>, unsaved: set<nat>)

  const NO_GAPS := Gaps({}, {})

  /**
    Holds between any two steps; `sound` are tables that persist. Tables outside `sound` are left to
    themselves.
   */
  predicate Invariant(cfg: Config, sound: set<nat>, gaps: Gaps, st: Plant) {
    && PlantOk(cfg, st)
    && (forall t :: 0 <= t < |cfg.tables| && t in sound ==> TableSound(cfg, st, t))
    && (forall t :: 0 <= t < |cfg.tables| && t in sound && t !in gaps.unsaved ==> Covered(cfg, st, t))
    && (forall t, i | 0 <= t < |cfg.tables| && 0 <= i < |cfg.tables[t].regs| && (t, i) !in gaps.uncopied ::
          Followed(cfg, st, t, i))
  }

  lemma KeepsWriter(writers: seq<Writer>, w: nat, now: Writer, x: Writer)
    requires w < |writers| && x in writers && writers[w] != x
    ensures x in writers[w := now]
  {
    var k :| 0 <= k < |writers| && writers[k] == x;
    assert writers[w := now][k] == x;
  }

  // -------------------------------------------------------------------------- restart

  /** Starting one more table leaves the registers of the tables before it alone. */
  lemma BootMemKeeps(cfg: Config, mem: seq<byte>, values: seq<seq<byte>>, u: nat, t: nat, i: nat)
    requires ConfigOk(cfg, |mem|) && t < u < |cfg.tables| && IsReg(cfg, t, i)
    requires ValuesFit(cfg.tables[u].regs, values)
    ensures RegsFit(cfg.tables[u].regs, |mem|) && Reg(cfg, t, i).End() <= |mem|
    ensures Current(StoreAll(mem, cfg.tables[u].regs, values, |cfg.tables[u].regs|), Reg(cfg, t, i)) ==
            Current(mem, Reg(cfg, t, i))
  {
    var d := Reg(cfg, t, i);
    forall k | 0 <= k < |cfg.tables[u].regs|
      ensures Disjoint(cfg.tables[u].regs[k].address, cfg.tables[u].regs[k].Bytes(), d.address, d.Bytes())
    {
      assert Disjoint(cfg.tables[t].regs[i].address, cfg.tables[t].regs[i].Bytes(),
                      cfg.tables[u].regs[k].address, cfg.tables[u].regs[k].Bytes());
    }
    StoreAllOutside(mem, cfg.tables[u].regs, values, |cfg.tables[u].regs|, d.address, d.Bytes());
  }

  /** Starting a table gives its registers their values. */
  lemma BootMemStores(cfg: Config, mem: seq<byte>, values: seq<seq<byte>>, t: nat, i: nat)
    requires ConfigOk(cfg, |mem|) && IsReg(cfg, t, i) && ValuesFit(cfg.tables[t].regs, values)
    ensures RegsFit(cfg.tables[t].regs, |mem|) && Reg(cfg, t, i).End() <= |mem|
    ensures Current(StoreAll(mem, cfg.tables[t].regs, values, |cfg.tables[t].regs|), Reg(cfg, t, i)) == values[i]
  {
    var regs := cfg.tables[t].regs;
    StoreAllStores(mem, regs, values, |regs|, i);
  }

  lemma {:induction false} BootMemHolds(cfg: Config, memSize: nat, values: seq<seq<seq<byte>>>, n: nat, t: nat, i: nat)
    requires ConfigOk(cfg, memSize) && StartValuesFit(cfg.tables, values) && t < n <= |cfg.tables| && IsReg(cfg, t, i)
    ensures Reg(cfg, t, i).End() <= memSize
    ensures Current(BootMem(cfg, memSize, values, n), Reg(cfg, t, i)) == values[t][i]
  {
    var before, u := BootMem(cfg, memSize, values, n - 1), n - 1;
    assert ValuesFit(cfg.tables[u].regs, values[u]);
    if t == u {
      BootMemStores(cfg, before, values[u], t, i);
    } else {
      BootMemHolds(cfg, memSize, values, u, t, i);
      BootMemKeeps(cfg, before, values[u], u, t, i);
    }
  }

  /** After a restart every register holds its start-up value. */
  lemma RestartHolds(cfg: Config, memSize: nat, flash: seq<Flash>, t: nat, i: nat)
    requires ConfigOk(cfg, memSize) && |flash| == |cfg.tables| && IsReg(cfg, t, i)
    ensures Reg(cfg, t, i).End() <= memSize && TableOk(cfg.tables[t])
    ensures Current(RestartMem(cfg, memSize, flash), Reg(cfg, t, i)) == BootValues(cfg, cfg.tables[t], flash[t])[i]
  {
    BootMemHolds(cfg, memSize, StartValues(cfg, memSize, flash), |cfg.tables|, t, i);
  }

  /** After a restart slots and memory of all saved registers agree. */
  lemma RestartAgrees(cfg: Config, memSize: nat, flash: seq<Flash>, t: nat, i: nat)
    requires ConfigOk(cfg, memSize) && |flash| == |cfg.tables| && IsReg(cfg, t, i) && Reg(cfg, t, i).saving
    ensures var d := Reg(cfg, t, i);
            && d.End() <= memSize && d.savedAddress + d.Bytes() <= cfg.tables[t].bufferSize
            && Current(RestartMem(cfg, memSize, flash), d) == Slot(RestartMirror(cfg, memSize, flash[t], t), d)
  {
    RestartHolds(cfg, memSize, flash, t, i);
    BootConsistent(cfg, cfg.tables[t], Zeros(cfg.tables[t].bufferSize), flash[t], i);
  }

  /** The mirror of a restarted table carries a valid checksum and the current version. */
  lemma RestartSound(cfg: Config, memSize: nat, flash: Flash, t: nat)
    requires ConfigOk(cfg, memSize) && t < |cfg.tables| && Persistent(cfg, memSize, flash, t)
    ensures var m := RestartMirror(cfg, memSize, flash, t);
            TableOk(cfg.tables[t]) && |m| >= 4 && CrcValid(cfg, m) && VersionMatches(cfg.tables[t], m)
  {
    var table := cfg.tables[t];
    assert TableOk(table);
    var buffer := Zeros(table.bufferSize);
    var v := VersionIndex(table.regs, |table.regs|);
    if v >= 0 {
      BootConsistent(cfg, table, buffer, flash, v);
    } else if !Restores(cfg, table, flash) {
      SealedIsValid(cfg, StoreSlots(Loaded(buffer, flash), table.regs, Defaults(table.regs), |table.regs|));
    }
  }

  lemma RestartVersion(cfg: Config, memSize: nat, flash: seq<Flash>, t: nat)
    requires ConfigOk(cfg, memSize) && |flash| == |cfg.tables| && t < |cfg.tables|
    requires Persistent(cfg, memSize, flash[t], t)
    ensures VersionCurrent(cfg, RestartMem(cfg, memSize, flash), t)
  {
    var v := VersionIndex(cfg.tables[t].regs, |cfg.tables[t].regs|);
    if v >= 0 {
      RestartHolds(cfg, memSize, flash, t, v);
      BootConsistent(cfg, cfg.tables[t], Zeros(cfg.tables[t].bufferSize), flash[t], v);
    }
  }

  /** A restart, with any flash contents, establishes the invariant for all tables that persist. */
  lemma RestartEstablishes(cfg: Config, sound: set<nat>, memSize: nat, flash: seq<Flash>, writers: nat)
    requires ConfigOk(cfg, memSize) && |flash| == |cfg.tables|
    requires forall t :: 0 <= t < |cfg.tables| && t in sound ==> Persistent(cfg, memSize, flash[t], t)
    ensures Invariant(cfg, sound, NO_GAPS, Restarted(cfg, memSize, flash, writers))
  {
    var st := Restarted(cfg, memSize, flash, writers);
    forall t | 0 <= t < |cfg.tables| && t in sound ensures TableSound(cfg, st, t) && Covered(cfg, st, t) {
      RestartSound(cfg, memSize, flash[t], t);
      RestartVersion(cfg, memSize, flash, t);
    }
    forall t, i | 0 <= t < |cfg.tables| && 0 <= i < |cfg.tables[t].regs| ensures Followed(cfg, st, t, i) {
      if Reg(cfg, t, i).saving {
        RestartAgrees(cfg, memSize, flash, t, i);
      }
    }
  }

  // ------------------------------------------------------------------------- the steps

  /** Storing a value into a register changes no other register. */
  lemma StoreKeepsRegister(cfg: Config, mem: seq<byte>, t: nat, i: nat, v: seq<byte>, u: nat, j: nat)
    requires ConfigOk(cfg, |mem|) && IsReg(cfg, t, i) && IsReg(cfg, u, j) && |v| == Reg(cfg, t, i).Bytes()
    ensures Reg(cfg, t, i).End() <= |mem| && Reg(cfg, u, j).End() <= |mem|
    ensures (t, i) != (u, j) ==>
              Current(Splice(mem, Reg(cfg, t, i).address, v), Reg(cfg, u, j)) == Current(mem, Reg(cfg, u, j))
  {
    RegOk(cfg, |mem|, t, i);
    RegOk(cfg, |mem|, u, j);
    if (t, i) != (u, j) {
      OtherRegistersKeep(cfg, mem, t, i, Reg(cfg, t, i).address, v, u, j);
    }
  }

  lemma StoreKeepsVersion(cfg: Config, mem: seq<byte>, t: nat, i: nat, v: seq<byte>, u: nat)
    requires ConfigOk(cfg, |mem|) && IsReg(cfg, t, i) && u < |cfg.tables| && |v| == Reg(cfg, t, i).Bytes()
    requires !Reg(cfg, t, i).isVersion && VersionCurrent(cfg, mem, u)
    ensures Reg(cfg, t, i).End() <= |mem|
    ensures VersionCurrent(cfg, Splice(mem, Reg(cfg, t, i).address, v), u)
  {
    RegOk(cfg, |mem|, t, i);
    var j := VersionIndex(cfg.tables[u].regs, |cfg.tables[u].regs|);
    if j >= 0 {
      StoreKeepsRegister(cfg, mem, t, i, v, u, j);
    }
  }

  /** Storing a value keeps all other registers and whatever a table has of soundness. */
  lemma PutsKeeps(cfg: Config, sound: set<nat>, gaps: Gaps, st: Plant, t: nat, i: nat, v: seq<byte>)
    requires Invariant(cfg, sound, gaps, st)
    requires IsReg(cfg, t, i) && |v| == Reg(cfg, t, i).Bytes() && !Reg(cfg, t, i).isVersion
    ensures Invariant(cfg, sound, gaps.(uncopied := gaps.uncopied + {(t, i)}), Puts(cfg, st, t, i, v))
  {
    var r := Puts(cfg, st, t, i, v);
    forall u, j | 0 <= u < |cfg.tables| && 0 <= j < |cfg.tables[u].regs| && (u, j) !in gaps.uncopied + {(t, i)}
      ensures Followed(cfg, r, u, j)
    {
      assert Followed(cfg, st, u, j);
      StoreKeepsRegister(cfg, st.mem, t, i, v, u, j);
    }
    forall u | 0 <= u < |cfg.tables| && u in sound
      ensures TableSound(cfg, r, u) && (u !in gaps.unsaved ==> Covered(cfg, r, u))
    {
      assert TableSound(cfg, st, u) && (u !in gaps.unsaved ==> Covered(cfg, st, u));
      StoreKeepsVersion(cfg, st.mem, t, i, v, u);
    }
  }

  /** An idle writer becomes one that is about to copy its register. */
  lemma WriterKeeps(cfg: Config, sound: set<nat>, gaps: Gaps, st: Plant, w: nat, t: nat, i: nat)
    requires Invariant(cfg, sound, gaps, st) && w < |st.writers| && st.writers[w] == Idle && IsReg(cfg, t, i)
    ensures Invariant(cfg, sound, gaps.(uncopied := gaps.uncopied - {(t, i)}),
                      st.(writers := st.writers[w := Stored(t, i)]))
  {
    var r := st.(writers := st.writers[w := Stored(t, i)]);
    assert r.writers[w] == Stored(t, i);
    forall u, j | 0 <= u < |cfg.tables| && 0 <= j < |cfg.tables[u].regs| && (u, j) !in gaps.uncopied - {(t, i)}
      ensures Followed(cfg, r, u, j)
    {
      assert (u, j) != (t, i) ==> Followed(cfg, st, u, j);
      if Stored(u, j) in st.writers {
        KeepsWriter(st.writers, w, Stored(t, i), Stored(u, j));
      }
    }
    forall u | 0 <= u < |cfg.tables| && u in sound
      ensures TableSound(cfg, r, u) && (u !in gaps.unsaved ==> Covered(cfg, r, u))
    {
      assert TableSound(cfg, st, u) && (u !in gaps.unsaved ==> Covered(cfg, st, u));
      if Requesting(u) in st.writers {
        KeepsWriter(st.writers, w, Stored(t, i), Requesting(u));
      }
    }
  }

  lemma StoresKeeps(cfg: Config, sound: set<nat>, gaps: Gaps, st: Plant, w: nat, t: nat, i: nat, v: seq<byte>)
    requires Invariant(cfg, sound, gaps, st) && w < |st.writers| && st.writers[w] == Idle
    requires IsReg(cfg, t, i) && |v| == Reg(cfg, t, i).Bytes() && !Reg(cfg, t, i).isVersion
    ensures Invariant(cfg, sound, gaps.(uncopied := gaps.uncopied - {(t, i)}), Stores(cfg, st, w, t, i, v))
  {
    PutsKeeps(cfg, sound, gaps, st, t, i, v);
    WriterKeeps(cfg, sound, gaps.(uncopied := gaps.uncopied + {(t, i)}), Puts(cfg, st, t, i, v), w, t, i);
    assert gaps.uncopied + {(t, i)} - {(t, i)} == gaps.uncopied - {(t, i)};
  }

  /** A copied register leaves its mirror sound: a version register carries the version. */
  lemma RefreshedIsSound(cfg: Config, st: Plant, t: nat, i: nat)
    requires PlantOk(cfg, st) && IsReg(cfg, t, i) && Reg(cfg, t, i).saving
    requires MirrorSound(cfg, st, t) && VersionCurrent(cfg, st.mem, t)
    ensures Reg(cfg, t, i).End() <= |st.mem| && |st.mirrors[t]| >= 4
    ensures Reg(cfg, t, i).savedAddress + Reg(cfg, t, i).Bytes() <= |st.mirrors[t]|
    ensures var m := Refreshed(cfg, st.mirrors[t], Reg(cfg, t, i), Current(st.mem, Reg(cfg, t, i)));
            TableOk(cfg.tables[t]) && CrcValid(cfg, m) && VersionMatches(cfg.tables[t], m)
  {
    RegOk(cfg, |st.mem|, t, i);
    var d, table := Reg(cfg, t, i), cfg.tables[t];
    RefreshedSlots(cfg, |st.mem|, t, i, i, st.mirrors[t], Current(st.mem, d));
    var v := VersionIndex(table.regs, |table.regs|);
    if v >= 0 && table.regs[v].saving {
      RefreshedSlots(cfg, |st.mem|, t, i, v, st.mirrors[t], Current(st.mem, d));
    }
  }

  /** Copying a register settles it and keeps what is known of all others. */
  lemma CopyFollows(cfg: Config, st: Plant, w: nat, u: nat, j: nat)
    requires PlantOk(cfg, st) && w < |st.writers| && st.writers[w].Stored? && IsReg(cfg, u, j)
    requires (u, j) != (st.writers[w].table, st.writers[w].index) ==> Followed(cfg, st, u, j)
    ensures Followed(cfg, Copies(cfg, st, w), u, j)
  {
    var t, i := st.writers[w].table, st.writers[w].index;
    var r := Copies(cfg, st, w);
    RegOk(cfg, |st.mem|, t, i);
    RegOk(cfg, |st.mem|, u, j);
    if u == t && Reg(cfg, t, i).saving && Reg(cfg, u, j).saving {
      RefreshedSlots(cfg, |st.mem|, t, i, j, st.mirrors[t], Current(st.mem, Reg(cfg, t, i)));
    }
    if Stored(u, j) in st.writers && (u, j) != (t, i) {
      KeepsWriter(st.writers, w, r.writers[w], Stored(u, j));
    }
  }

  /** Copying a register keeps what is known of the tables. */
  lemma CopyCovers(cfg: Config, sound: set<nat>, gaps: Gaps, st: Plant, w: nat, u: nat)
    requires Invariant(cfg, sound, gaps, st) && w < |st.writers| && st.writers[w].Stored?
    requires u < |cfg.tables| && u in sound
    ensures TableSound(cfg, Copies(cfg, st, w), u) && (u !in gaps.unsaved ==> Covered(cfg, Copies(cfg, st, w), u))
  {
    var t, i := st.writers[w].table, st.writers[w].index;
    var r := Copies(cfg, st, w);
    assert TableSound(cfg, st, u) && (u !in gaps.unsaved ==> Covered(cfg, st, u));
    if u == t && Reg(cfg, t, i).saving {
      RefreshedIsSound(cfg, st, t, i);
    }
    if Requesting(u) in st.writers {
      KeepsWriter(st.writers, w, r.writers[w], Requesting(u));
    }
    if r.mirrors != st.mirrors {
      assert r.writers[w] == Requesting(t);
    }
  }

  lemma CopiesKeeps(cfg: Config, sound: set<nat>, gaps: Gaps, st: Plant, w: nat)
    requires Invariant(cfg, sound, gaps, st) && w < |st.writers| && st.writers[w].Stored?
    ensures var now := gaps.uncopied - {(st.writers[w].table, st.writers[w].index)};
            Invariant(cfg, sound, gaps.(uncopied := now), Copies(cfg, st, w))
  {
    var t, i := st.writers[w].table, st.writers[w].index;
    var r := Copies(cfg, st, w);
    forall u | 0 <= u < |cfg.tables| && u in sound
      ensures TableSound(cfg, r, u) && (u !in gaps.unsaved ==> Covered(cfg, r, u))
    {
      CopyCovers(cfg, sound, gaps, st, w, u);
    }
    forall u, j | 0 <= u < |cfg.tables| && 0 <= j < |cfg.tables[u].regs| && (u, j) !in gaps.uncopied - {(t, i)}
      ensures Followed(cfg, r, u, j)
    {
      assert (u, j) != (t, i) ==> Followed(cfg, st, u, j);
      CopyFollows(cfg, st, w, u, j);
    }
  }

  lemma RequestsKeeps(cfg: Config, sound: set<nat>, gaps: Gaps, st: Plant, w: nat)
    requires Invariant(cfg, sound, gaps, st) && w < |st.writers| && st.writers[w].Requesting?
    ensures Invariant(cfg, sound, gaps, Requests(cfg, st, w))
  {
    var r := Requests(cfg, st, w);
    forall u | 0 <= u < |cfg.tables| && u in sound
      ensures TableSound(cfg, r, u) && (u !in gaps.unsaved ==> Covered(cfg, r, u))
    {
      assert TableSound(cfg, st, u) && (u !in gaps.unsaved ==> Covered(cfg, st, u));
      if Requesting(u) in st.writers && u != st.writers[w].table {
        KeepsWriter(st.writers, w, Idle, Requesting(u));
      }
    }
    forall u, j | 0 <= u < |cfg.tables| && 0 <= j < |cfg.tables[u].regs| && (u, j) !in gaps.uncopied
      ensures Followed(cfg, r, u, j)
    {
      assert Followed(cfg, st, u, j);
      if Stored(u, j) in st.writers {
        KeepsWriter(st.writers, w, Idle, Stored(u, j));
      }
    }
  }

  /** Requests that only grow, or move to the duty task, keep the invariant. */
  lemma DueKeeps(cfg: Config, sound: set<nat>, gaps: Gaps, st: Plant, r: Plant)
    requires Invariant(cfg, sound, gaps, st) && PlantOk(cfg, r)
    requires r == st.(tableToSave := r.tableToSave, saveRequested := r.saveRequested, draining := r.draining)
    requires forall t :: 0 <= t < |cfg.tables| && SaveDue(st, t) ==> SaveDue(r, t) || t in gaps.unsaved
    ensures Invariant(cfg, sound, gaps, r)
  {
    forall u | 0 <= u < |cfg.tables| && u in sound
      ensures TableSound(cfg, r, u) && (u !in gaps.unsaved ==> Covered(cfg, r, u))
    {
      assert TableSound(cfg, st, u) && (u !in gaps.unsaved ==> Covered(cfg, st, u));
    }
    forall u, j | 0 <= u < |cfg.tables| && 0 <= j < |cfg.tables[u].regs| && (u, j) !in gaps.uncopied
      ensures Followed(cfg, r, u, j)
    {
      assert Followed(cfg, st, u, j);
    }
  }

  /** A saved table is found again by the next start. */
  lemma SavedIsSound(cfg: Config, c: Counter, st: Plant, t: nat, succeeds: bool, u: nat)
    requires PlantOk(cfg, st) && IsCounter(cfg, c) && u < |cfg.tables| && TableSound(cfg, st, u)
    ensures TableSound(cfg, Saves(cfg, c, st, t, succeeds), u)
    ensures u == t && succeeds ==> Covered(cfg, Saves(cfg, c, st, t, succeeds), u)
  {
    SavedMirrorRestores(cfg, cfg.tables[u], st.mirrors[u], Zeros(cfg.tables[u].bufferSize));
    var d := Reg(cfg, c.table, c.index);
    RegOk(cfg, |st.mem|, c.table, c.index);
    StoreKeepsVersion(cfg, st.mem, c.table, c.index, Incremented(Current(st.mem, d)), u);
  }

  /** A save settles its table; a failed one leaves it open. Both store the count and do not copy it. */
  function AfterSave(c: Counter, gaps: Gaps, t: nat, succeeds: bool): Gaps {
    Gaps(gaps.uncopied + {(c.table, c.index)}, if succeeds then gaps.unsaved - {t} else gaps.unsaved + {t})
  }

  lemma SavesKeeps(cfg: Config, c: Counter, sound: set<nat>, gaps: Gaps, st: Plant, t: nat, succeeds: bool)
    requires Invariant(cfg, sound, gaps, st) && IsCounter(cfg, c)
    ensures Invariant(cfg, sound, AfterSave(c, gaps, t, succeeds), Saves(cfg, c, st, t, succeeds))
  {
    var r, now := Saves(cfg, c, st, t, succeeds), AfterSave(c, gaps, t, succeeds);
    forall u | 0 <= u < |cfg.tables| && u in sound
      ensures TableSound(cfg, r, u) && (u !in now.unsaved ==> Covered(cfg, r, u))
    {
      assert TableSound(cfg, st, u) && (u !in gaps.unsaved ==> Covered(cfg, st, u));
      SavedIsSound(cfg, c, st, t, succeeds, u);
    }
    forall u, j | 0 <= u < |cfg.tables| && 0 <= j < |cfg.tables[u].regs| && (u, j) !in now.uncopied
      ensures Followed(cfg, r, u, j)
    {
      assert Followed(cfg, st, u, j);
      StoreKeepsRegister(cfg, st.mem, c.table, c.index, Incremented(Current(st.mem, Reg(cfg, c.table, c.index))), u, j);
    }
  }

  lemma PowerCycleKeeps(cfg: Config, sound: set<nat>, gaps: Gaps, st: Plant)
    requires Invariant(cfg, sound, gaps, st)
    ensures Invariant(cfg, sound, NO_GAPS, Restarted(cfg, |st.mem|, st.flash, |st.writers|))
  {
    forall t | 0 <= t < |cfg.tables| && t in sound ensures Persistent(cfg, |st.mem|, st.flash[t], t) {
      assert TableSound(cfg, st, t);
    }
    RestartEstablishes(cfg, sound, |st.mem|, st.flash, |st.writers|);
  }

  /** Only saves change a blob. */
  lemma StepFlash(cfg: Config, c: Counter, st: Plant, step: Step, t: nat)
    requires PlantOk(cfg, st) && IsCounter(cfg, c) && Enabled(cfg, st, step) && t < |cfg.tables|
    ensures Next(cfg, c, st, step).flash[t] == if step == SaveTable(t) then Some(st.mirrors[t]) else st.flash[t]
  {
  }

  // -------------------------------------------------------------------------- all runs

  /** The gaps one step later, a table that is due for saving being none. */
  function GapsAfter(cfg: Config, c: Counter, gaps: Gaps, st: Plant, step: Step): Gaps
    requires PlantOk(cfg, st) && IsCounter(cfg, c) && Enabled(cfg, st, step)
  {
    Undue(Next(cfg, c, st, step), GapsLeft(cfg, c, gaps, st, step))
  }

  /**
    A store that is going to be copied, and the copy itself, settle their register, a save its
    table, and a restart everything.
   */
  function GapsLeft(cfg: Config, c: Counter, gaps: Gaps, st: Plant, step: Step): Gaps
    requires PlantOk(cfg, st) && Enabled(cfg, st, step)
  {
    match step
    case StoreValue(_, t, i, _) => gaps.(uncopied := gaps.uncopied - {(t, i)})
    case CopyToMirror(w) => gaps.(uncopied := gaps.uncopied - {(st.writers[w].table, st.writers[w].index)})
    case StorePlainly(t, i, _) => gaps.(uncopied := gaps.uncopied + {(t, i)})
    case SaveTable(t) => AfterSave(c, gaps, t, true)
    case SaveFails(t) => AfterSave(c, gaps, t, false)
    case PowerCycle => NO_GAPS
    case _ => gaps
  }

  function Undue(st: Plant, gaps: Gaps): Gaps {
    gaps.(unsaved := set t | t in gaps.unsaved && !SaveDue(st, t))
  }

  function GapsIn(cfg: Config, c: Counter, gaps: Gaps, st: Plant, steps: seq<Step>): Gaps
    requires PlantOk(cfg, st) && IsCounter(cfg, c) && Possible(cfg, c, st, steps)
    decreases |steps|
  {
    if steps == [] then gaps
    else GapsIn(cfg, c, GapsAfter(cfg, c, gaps, st, steps[0]), Next(cfg, c, st, steps[0]), steps[1..])
  }

  /** A table that is due for saving is covered, whatever became of it before. */
  lemma DueIsCovered(cfg: Config, sound: set<nat>, gaps: Gaps, st: Plant)
    requires Invariant(cfg, sound, gaps, st)
    ensures Invariant(cfg, sound, Undue(st, gaps), st)
  {
    forall t | 0 <= t < |cfg.tables| && t in sound && t !in Undue(st, gaps).unsaved ensures Covered(cfg, st, t) {
      assert t !in gaps.unsaved || SaveDue(st, t);
    }
  }

  lemma StepKeepsInvariant(cfg: Config, c: Counter, sound: set<nat>, gaps: Gaps, st: Plant, step: Step)
    requires Invariant(cfg, sound, gaps, st) && IsCounter(cfg, c) && Enabled(cfg, st, step)
    ensures Invariant(cfg, sound, GapsAfter(cfg, c, gaps, st, step), Next(cfg, c, st, step))
  {
    var r := Next(cfg, c, st, step);
    match step {
      case StoreValue(w, t, i, v) => StoresKeeps(cfg, sound, gaps, st, w, t, i, v);
      case CopyToMirror(w) => CopiesKeeps(cfg, sound, gaps, st, w);
      case RequestSave(w) => RequestsKeeps(cfg, sound, gaps, st, w);
      case StorePlainly(t, i, v) => PutsKeeps(cfg, sound, gaps, st, t, i, v);
      case RequestAll => DueKeeps(cfg, sound, gaps, st, r);
      case TakeRequests => DueKeeps(cfg, sound, gaps, st, r);
      case SaveTable(t) => SavesKeeps(cfg, c, sound, gaps, st, t, true);
      case SaveFails(t) => SavesKeeps(cfg, c, sound, gaps, st, t, false);
      case PowerCycle => PowerCycleKeeps(cfg, sound, gaps, st);
    }
    DueIsCovered(cfg, sound, GapsLeft(cfg, c, gaps, st, step), r);
  }

  /**
    No save is lost: in every interleaving of writers, duty task and power failures, the mirror
    of a table that persists, if a restart would not bring it back, is due for saving, unless
    its save has failed and nobody has asked for it since; and a saved register that differs from
    its slot has a writer about to copy it, unless it was stored into without one.
   */
  lemma {:induction false} NoLostSave(cfg: Config, c: Counter, sound: set<nat>, gaps: Gaps, st: Plant, steps: seq<Step>)
    requires Invariant(cfg, sound, gaps, st) && IsCounter(cfg, c) && Possible(cfg, c, st, steps)
    ensures Invariant(cfg, sound, GapsIn(cfg, c, gaps, st, steps), After(cfg, c, st, steps))
    decreases |steps|
  {
    if steps != [] {
      StepKeepsInvariant(cfg, c, sound, gaps, st, steps[0]);
      NoLostSave(cfg, c, sound, GapsAfter(cfg, c, gaps, st, steps[0]), Next(cfg, c, st, steps[0]), steps[1..]);
    }
  }
}
