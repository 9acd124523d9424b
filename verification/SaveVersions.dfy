/**
  Tables whose version register has no default, or another one than the current version, as
  add_user_task.py:148 declares it: nothing they save is ever restored, unless their first start
  restored something.
 */
module SaveVersions {
  import opened Bits
  import opened Memory
  import opened Registers
  import opened WritePath
  import opened WriteLaws
  import opened Boot
  import opened SaveProtocol
  import opened SaveLaws

  /** The version register of table `t`, or -1. */
  function VersionOf(cfg: Config, t: nat): (v: int)
    requires t < |cfg.tables|
    ensures -1 <= v < |cfg.tables[t].regs| && (v >= 0 ==> cfg.tables[t].regs[v].isVersion)
  {
    VersionIndex(cfg.tables[t].regs, |cfg.tables[t].regs|)
  }

  /** In memory the version register holds its default, and neither mirror nor flash carry the current version. */
  predicate VersionLost(cfg: Config, st: Plant, t: nat)
    requires PlantOk(cfg, st) && t < |cfg.tables|
  {
    var v := VersionOf(cfg, t);
    assert TableOk(cfg.tables[t]);
    && v >= 0 && !VersionDefaulted(cfg, |st.mem|, t)
    && (RegOk(cfg, |st.mem|, t, v); Current(st.mem, Reg(cfg, t, v)) == Reg(cfg, t, v).Default())
    && !VersionMatches(cfg.tables[t], st.mirrors[t])
    && !Restores(cfg, cfg.tables[t], st.flash[t])
  }

  /** A start that finds nothing to restore leads there. */
  lemma RestartLoses(cfg: Config, memSize: nat, flash: seq<Flash>, writers: nat, t: nat)
    requires ConfigOk(cfg, memSize) && |flash| == |cfg.tables| && t < |cfg.tables| && VersionOf(cfg, t) >= 0
    requires !Persistent(cfg, memSize, flash[t], t)
    ensures VersionLost(cfg, Restarted(cfg, memSize, flash, writers), t)
  {
    var v := VersionOf(cfg, t);
    RestartHolds(cfg, memSize, flash, t, v);
    BootConsistent(cfg, cfg.tables[t], Zeros(cfg.tables[t].bufferSize), flash[t], v);
  }

  lemma PutsLose(cfg: Config, st: Plant, u: nat, j: nat, value: seq<byte>, t: nat)
    requires PlantOk(cfg, st) && t < |cfg.tables| && VersionLost(cfg, st, t)
    requires IsReg(cfg, u, j) && |value| == Reg(cfg, u, j).Bytes() && !Reg(cfg, u, j).isVersion
    ensures VersionLost(cfg, Puts(cfg, st, u, j, value), t)
  {
    StoreKeepsRegister(cfg, st.mem, u, j, value, t, VersionOf(cfg, t));
  }

  lemma CopiesLose(cfg: Config, st: Plant, w: nat, t: nat)
    requires PlantOk(cfg, st) && t < |cfg.tables| && VersionLost(cfg, st, t)
    requires w < |st.writers| && st.writers[w].Stored?
    ensures VersionLost(cfg, Copies(cfg, st, w), t)
  {
    var u, j, v := st.writers[w].table, st.writers[w].index, VersionOf(cfg, t);
    RegOk(cfg, |st.mem|, u, j);
    RegOk(cfg, |st.mem|, t, v);
    if u == t && Reg(cfg, u, j).saving && Reg(cfg, t, v).saving {
      RefreshedSlots(cfg, |st.mem|, t, j, v, st.mirrors[t], Current(st.mem, Reg(cfg, t, j)));
    }
  }

  lemma SavesLose(cfg: Config, c: Counter, st: Plant, u: nat, succeeds: bool, t: nat)
    requires PlantOk(cfg, st) && IsCounter(cfg, c) && t < |cfg.tables| && VersionLost(cfg, st, t)
    ensures VersionLost(cfg, Saves(cfg, c, st, u, succeeds), t)
  {
    RegOk(cfg, |st.mem|, c.table, c.index);
    PutsLose(cfg, st, c.table, c.index, Incremented(Current(st.mem, Reg(cfg, c.table, c.index))), t);
  }

  lemma StepLoses(cfg: Config, c: Counter, st: Plant, step: Step, t: nat)
    requires PlantOk(cfg, st) && IsCounter(cfg, c) && Enabled(cfg, st, step)
    requires t < |cfg.tables| && VersionLost(cfg, st, t)
    ensures VersionLost(cfg, Next(cfg, c, st, step), t)
  {
    match step
    case StoreValue(w, u, j, v) => PutsLose(cfg, st, u, j, v, t);
    case CopyToMirror(w) => CopiesLose(cfg, st, w, t);
    case RequestSave(_) =>
    case StorePlainly(u, j, v) => PutsLose(cfg, st, u, j, v, t);
    case RequestAll =>
    case TakeRequests =>
    case SaveTable(u) => SavesLose(cfg, c, st, u, true, t);
    case SaveFails(u) => SavesLose(cfg, c, st, u, false, t);
    case PowerCycle => RestartLoses(cfg, |st.mem|, st.flash, |st.writers|, t);
  }

  /** A lost version stays lost, whatever is stored and saved. */
  lemma {:induction false} RunLoses(cfg: Config, c: Counter, st: Plant, steps: seq<Step>, t: nat)
    requires PlantOk(cfg, st) && IsCounter(cfg, c) && Possible(cfg, c, st, steps)
    requires t < |cfg.tables| && VersionLost(cfg, st, t)
    ensures VersionLost(cfg, After(cfg, c, st, steps), t)
    decreases |steps|
  {
    if steps != [] {
      StepLoses(cfg, c, st, steps[0], t);
      RunLoses(cfg, c, Next(cfg, c, st, steps[0]), steps[1..], t);
    }
  }

  lemma StepRestores(cfg: Config, c: Counter, st: Plant, step: Step, t: nat)
    requires PlantOk(cfg, st) && IsCounter(cfg, c) && Enabled(cfg, st, step)
    requires t < |cfg.tables| && TableSound(cfg, st, t) && TableOk(cfg.tables[t])
    requires Restores(cfg, cfg.tables[t], st.flash[t])
    ensures Restores(cfg, cfg.tables[t], Next(cfg, c, st, step).flash[t])
  {
    StepFlash(cfg, c, st, step, t);
    SavedMirrorRestores(cfg, cfg.tables[t], st.mirrors[t], Zeros(cfg.tables[t].bufferSize));
  }

  /** Of a table that persists a restored blob is followed by restored blobs only. */
  lemma {:induction false} RunRestores(cfg: Config, c: Counter, sound: set<nat>, gaps: Gaps, st: Plant,
                                       steps: seq<Step>, t: nat)
    requires Invariant(cfg, sound, gaps, st) && IsCounter(cfg, c) && Possible(cfg, c, st, steps)
    requires t < |cfg.tables| && t in sound && TableOk(cfg.tables[t]) && Restores(cfg, cfg.tables[t], st.flash[t])
    ensures Restores(cfg, cfg.tables[t], After(cfg, c, st, steps).flash[t])
    decreases |steps|
  {
    if steps != [] {
      assert TableSound(cfg, st, t);
      StepRestores(cfg, c, st, steps[0], t);
      StepKeepsInvariant(cfg, c, sound, gaps, st, steps[0]);
      RunRestores(cfg, c, sound, GapsAfter(cfg, c, gaps, st, steps[0]), Next(cfg, c, st, steps[0]), steps[1..], t);
    }
  }

  lemma LostOrRestored(cfg: Config, c: Counter, st: Plant, steps: seq<Step>, t: nat)
    requires PlantOk(cfg, st) && IsCounter(cfg, c) && t < |cfg.tables| && Possible(cfg, c, st, steps)
    requires TableOk(cfg.tables[t])
    requires if Restores(cfg, cfg.tables[t], st.flash[t]) then Invariant(cfg, {t}, NO_GAPS, st)
             else VersionLost(cfg, st, t)
    ensures Restores(cfg, cfg.tables[t], After(cfg, c, st, steps).flash[t])
       <==> Restores(cfg, cfg.tables[t], st.flash[t])
  {
    if Restores(cfg, cfg.tables[t], st.flash[t]) {
      RunRestores(cfg, c, {t}, NO_GAPS, st, steps, t);
    } else {
      RunLoses(cfg, c, st, steps, t);
    }
  }

  lemma StartLosesOrRestores(cfg: Config, c: Counter, memSize: nat, first: seq<Flash>, writers: nat, t: nat)
    requires ConfigOk(cfg, memSize) && |first| == |cfg.tables| && t < |cfg.tables| && TableOk(cfg.tables[t])
    requires VersionOf(cfg, t) >= 0 && !VersionDefaulted(cfg, memSize, t)
    ensures var st := Restarted(cfg, memSize, first, writers);
            if Restores(cfg, cfg.tables[t], first[t]) then Invariant(cfg, {t}, NO_GAPS, st) else VersionLost(cfg, st, t)
  {
    if Restores(cfg, cfg.tables[t], first[t]) {
      RestartEstablishes(cfg, {t}, memSize, first, writers);
    } else {
      RestartLoses(cfg, memSize, first, writers, t);
    }
  }

  /**
    A table whose version register does not have the current version as its default: after any
    run since a start, whatever was stored and saved, the next start restores its values exactly
    if that first start did.
   */
  lemma RestoresOnlyWhatItDid(cfg: Config, c: Counter, memSize: nat, first: seq<Flash>, writers: nat, st: Plant,
                              steps: seq<Step>, t: nat)
    requires ConfigOk(cfg, memSize) && IsCounter(cfg, c) && |first| == |cfg.tables| && t < |cfg.tables|
    requires VersionOf(cfg, t) >= 0 && !VersionDefaulted(cfg, memSize, t)
    requires st == Restarted(cfg, memSize, first, writers) && Possible(cfg, c, st, steps)
    ensures TableOk(cfg.tables[t])
    ensures Restores(cfg, cfg.tables[t], After(cfg, c, st, steps).flash[t])
       <==> Restores(cfg, cfg.tables[t], first[t])
  {
    StartLosesOrRestores(cfg, c, memSize, first, writers, t);
    LostOrRestored(cfg, c, st, steps, t);
  }
}
