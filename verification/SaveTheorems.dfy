/**
  What the save protocol promises its users: values outlive power cycles, and whatever happens in
  between a start finds complete data.
 */
module SaveTheorems {
  import opened Bits
  import opened Memory
  import opened Registers
  import opened WritePath
  import opened Boot
  import opened SaveProtocol
  import opened SaveLaws

  // ------------------------------------------------------------------------ durability

  /** Table `t` is not due for saving, and none of its saves has been forgotten. */
  predicate TableSettled(gaps: Gaps, st: Plant, t: nat) {
    !SaveDue(st, t) && t !in gaps.unsaved
  }

  /** Register (t, i) is not about to be copied, and nobody stored into it without copying. */
  predicate RegisterSettled(gaps: Gaps, st: Plant, t: nat, i: nat) {
    Stored(t, i) !in st.writers && (t, i) !in gaps.uncopied
  }

  /**
    What a power cycle does to a saved register of a settled table, whatever goes on elsewhere: it
    brings back the slot, and so the value exactly when the slot holds it.
   */
  lemma SurvivesExactly(cfg: Config, sound: set<nat>, gaps: Gaps, st: Plant, t: nat, i: nat)
    requires Invariant(cfg, sound, gaps, st) && t in sound && TableSettled(gaps, st, t)
    requires IsReg(cfg, t, i) && Reg(cfg, t, i).saving
    ensures Reg(cfg, t, i).End() <= |st.mem| && Reg(cfg, t, i).savedAddress + Reg(cfg, t, i).Bytes() <= |st.mirrors[t]|
    ensures RestartMirrors(cfg, |st.mem|, st.flash)[t] == st.mirrors[t]
    ensures Current(RestartMem(cfg, |st.mem|, st.flash), Reg(cfg, t, i)) == Slot(st.mirrors[t], Reg(cfg, t, i))
  {
    RegOk(cfg, |st.mem|, t, i);
    assert Covered(cfg, st, t);
    RestartAgrees(cfg, |st.mem|, st.flash, t, i);
  }

  /** A settled register of a settled table outlives a power cycle. */
  lemma SettledSurvives(cfg: Config, sound: set<nat>, gaps: Gaps, st: Plant, t: nat, i: nat)
    requires Invariant(cfg, sound, gaps, st) && t in sound && IsReg(cfg, t, i) && Reg(cfg, t, i).saving
    requires TableSettled(gaps, st, t) && RegisterSettled(gaps, st, t, i)
    ensures Reg(cfg, t, i).End() <= |st.mem|
    ensures Current(RestartMem(cfg, |st.mem|, st.flash), Reg(cfg, t, i)) == Current(st.mem, Reg(cfg, t, i))
  {
    SurvivesExactly(cfg, sound, gaps, st, t, i);
    assert Followed(cfg, st, t, i);
  }

  /**
    Wherever a run is cut, a register that is settled there keeps its value over a power cycle,
    whatever other writers and tables are at.
   */
  lemma RunsAreDurable(cfg: Config, c: Counter, sound: set<nat>, gaps: Gaps, st: Plant, steps: seq<Step>,
                       t: nat, i: nat)
    requires Invariant(cfg, sound, gaps, st) && IsCounter(cfg, c) && Possible(cfg, c, st, steps)
    requires t in sound && IsReg(cfg, t, i) && Reg(cfg, t, i).saving
    requires TableSettled(GapsIn(cfg, c, gaps, st, steps), After(cfg, c, st, steps), t)
    requires RegisterSettled(GapsIn(cfg, c, gaps, st, steps), After(cfg, c, st, steps), t, i)
    ensures var last := After(cfg, c, st, steps);
            && Reg(cfg, t, i).End() <= |last.mem|
            && Current(RestartMem(cfg, |last.mem|, last.flash), Reg(cfg, t, i)) == Current(last.mem, Reg(cfg, t, i))
  {
    NoLostSave(cfg, c, sound, gaps, st, steps);
    SettledSurvives(cfg, sound, GapsIn(cfg, c, gaps, st, steps), After(cfg, c, st, steps), t, i);
  }

  /** So it is from any flash contents on, for every table that persists. */
  lemma PersistentIsDurable(cfg: Config, c: Counter, memSize: nat, first: seq<Flash>, writers: nat, st: Plant,
                            steps: seq<Step>, t: nat, i: nat)
    requires ConfigOk(cfg, memSize) && IsCounter(cfg, c) && |first| == |cfg.tables|
    requires st == Restarted(cfg, memSize, first, writers) && Possible(cfg, c, st, steps)
    requires IsReg(cfg, t, i) && Reg(cfg, t, i).saving && Persistent(cfg, memSize, first[t], t)
    requires TableSettled(GapsIn(cfg, c, NO_GAPS, st, steps), After(cfg, c, st, steps), t)
    requires RegisterSettled(GapsIn(cfg, c, NO_GAPS, st, steps), After(cfg, c, st, steps), t, i)
    ensures var last := After(cfg, c, st, steps);
            && Reg(cfg, t, i).End() <= |last.mem|
            && Current(RestartMem(cfg, |last.mem|, last.flash), Reg(cfg, t, i)) == Current(last.mem, Reg(cfg, t, i))
  {
    RestartEstablishes(cfg, {t}, memSize, first, writers);
    RunsAreDurable(cfg, c, {t}, NO_GAPS, st, steps, t, i);
  }

  /**
    A value that is stored plainly, as `sta_ip` and `wifi_setting` are (main/wireless_control.c:93,
    216-218), does not outlive a power cycle: the slot comes back in its place.
   */
  lemma PlainStoreIsLost(cfg: Config, sound: set<nat>, gaps: Gaps, st: Plant, t: nat, i: nat, v: seq<byte>)
    requires Invariant(cfg, sound, gaps, st) && t in sound && TableSettled(gaps, st, t)
    requires Enabled(cfg, st, StorePlainly(t, i, v)) && Reg(cfg, t, i).saving
    ensures Reg(cfg, t, i).End() <= |st.mem| && Reg(cfg, t, i).savedAddress + Reg(cfg, t, i).Bytes() <= |st.mirrors[t]|
    ensures var r := Puts(cfg, st, t, i, v);
            && Current(r.mem, Reg(cfg, t, i)) == v
            && Current(RestartMem(cfg, |r.mem|, r.flash), Reg(cfg, t, i)) == Slot(st.mirrors[t], Reg(cfg, t, i))
  {
    PutsKeeps(cfg, sound, gaps, st, t, i, v);
    SurvivesExactly(cfg, sound, gaps.(uncopied := gaps.uncopied + {(t, i)}), Puts(cfg, st, t, i, v), t, i);
    RegOk(cfg, |st.mem|, t, i);
    SliceOfSplice(st.mem, Reg(cfg, t, i).address, v);
  }

  // ------------------------------------------------------------------------------ saves

  /** The plant after the first `n` steps. */
  function StateAt(cfg: Config, c: Counter, st: Plant, steps: seq<Step>, n: nat): (r: Plant)
    requires PlantOk(cfg, st) && IsCounter(cfg, c) && Possible(cfg, c, st, steps) && n <= |steps|
    ensures PlantOk(cfg, r)
    decreases n
  {
    if n == 0 then st else StateAt(cfg, c, Next(cfg, c, st, steps[0]), steps[1..], n - 1)
  }

  /** Step `n` is the last save of table `t`, and flash holds what the mirror was at this moment. */
  predicate LastSave(cfg: Config, c: Counter, st: Plant, steps: seq<Step>, t: nat, n: nat)
    requires PlantOk(cfg, st) && IsCounter(cfg, c) && Possible(cfg, c, st, steps) && t < |cfg.tables|
  {
    && n < |steps| && steps[n] == SaveTable(t) && SaveTable(t) !in steps[n + 1..]
    && After(cfg, c, st, steps).flash[t] == Some(StateAt(cfg, c, st, steps, n).mirrors[t])
  }

  /** A last save behind the first step is one of the whole run. */
  lemma LastSaveLater(cfg: Config, c: Counter, st: Plant, steps: seq<Step>, t: nat, n: nat)
    requires PlantOk(cfg, st) && IsCounter(cfg, c) && t < |cfg.tables| && steps != []
    requires Possible(cfg, c, st, steps) && LastSave(cfg, c, Next(cfg, c, st, steps[0]), steps[1..], t, n)
    ensures LastSave(cfg, c, st, steps, t, n + 1)
  {
    assert steps[n + 2..] == steps[1..][n + 1..];
  }

  lemma LastSaveHere(cfg: Config, c: Counter, st: Plant, steps: seq<Step>, t: nat)
    requires PlantOk(cfg, st) && IsCounter(cfg, c) && t < |cfg.tables| && steps != []
    requires Possible(cfg, c, st, steps) && steps[0] == SaveTable(t) && SaveTable(t) !in steps[1..]
    requires After(cfg, c, st, steps).flash[t] == Some(st.mirrors[t])
    ensures LastSave(cfg, c, st, steps, t, 0)
  {
    assert StateAt(cfg, c, st, steps, 0) == st;
  }

  /** The last save of table `t` in a run, or none, and then its blob is what it was. */
  predicate LastSaveIf(cfg: Config, c: Counter, st: Plant, steps: seq<Step>, t: nat, n: Option<nat>)
    requires PlantOk(cfg, st) && IsCounter(cfg, c) && Possible(cfg, c, st, steps) && t < |cfg.tables|
  {
    match n
    case Some(k) => LastSave(cfg, c, st, steps, t, k)
    case None => SaveTable(t) !in steps && After(cfg, c, st, steps).flash[t] == st.flash[t]
  }

  /** Without a save behind the first step, the first step decides. */
  lemma LastSaveFirst(cfg: Config, c: Counter, st: Plant, steps: seq<Step>, t: nat)
    requires PlantOk(cfg, st) && IsCounter(cfg, c) && t < |cfg.tables| && steps != [] && Possible(cfg, c, st, steps)
    requires LastSaveIf(cfg, c, Next(cfg, c, st, steps[0]), steps[1..], t, None)
    ensures LastSaveIf(cfg, c, st, steps, t, if steps[0] == SaveTable(t) then Some(0) else None)
  {
    StepFlash(cfg, c, st, steps[0], t);
    if steps[0] == SaveTable(t) {
      LastSaveHere(cfg, c, st, steps, t);
    } else {
      NotAmong(steps, SaveTable(t));
    }
  }

  lemma NotAmong(steps: seq<Step>, step: Step)
    requires steps != [] && steps[0] != step && step !in steps[1..]
    ensures step !in steps
  {
    assert steps == [steps[0]] + steps[1..];
  }

  /** The last save, one step earlier. */
  function Earlier(step: Step, t: nat, n: Option<nat>): Option<nat> {
    if n.Some? then Some(n.value + 1) else if step == SaveTable(t) then Some(0) else None
  }

  lemma LastSaveNext(cfg: Config, c: Counter, st: Plant, steps: seq<Step>, t: nat, n: Option<nat>)
    requires PlantOk(cfg, st) && IsCounter(cfg, c) && t < |cfg.tables| && steps != []
    requires Possible(cfg, c, st, steps) && LastSaveIf(cfg, c, Next(cfg, c, st, steps[0]), steps[1..], t, n)
    ensures LastSaveIf(cfg, c, st, steps, t, Earlier(steps[0], t, n))
  {
    if n.Some? {
      LastSaveLater(cfg, c, st, steps, t, n.value);
    } else {
      LastSaveFirst(cfg, c, st, steps, t);
    }
  }

  /** Over every run a blob is the mirror of the last save, or what it was when there is none. */
  lemma {:induction false} BlobIsLastSave(cfg: Config, c: Counter, st: Plant, steps: seq<Step>, t: nat)
    returns (n: Option<nat>)
    requires PlantOk(cfg, st) && IsCounter(cfg, c) && Possible(cfg, c, st, steps) && t < |cfg.tables|
    ensures LastSaveIf(cfg, c, st, steps, t, n)
    decreases |steps|
  {
    n := None;
    if steps != [] {
      n := BlobIsLastSave(cfg, c, Next(cfg, c, st, steps[0]), steps[1..], t);
      LastSaveNext(cfg, c, st, steps, t, n);
      n := Earlier(steps[0], t, n);
    }
  }

  lemma StepKeepsTaken(cfg: Config, c: Counter, st: Plant, step: Step, t: nat)
    requires PlantOk(cfg, st) && IsCounter(cfg, c) && Enabled(cfg, st, step) && t in st.draining
    requires step != SaveTable(t) && step != SaveFails(t) && step != PowerCycle
    ensures t in Next(cfg, c, st, step).draining
  {
  }

  /** What the duty task took over leaves its hands by a save, successful or not, or in a power failure. */
  lemma {:induction false} TakenIsSaved(cfg: Config, c: Counter, st: Plant, steps: seq<Step>, t: nat)
    requires PlantOk(cfg, st) && IsCounter(cfg, c) && Possible(cfg, c, st, steps) && t in st.draining
    requires SaveTable(t) !in steps && SaveFails(t) !in steps && PowerCycle !in steps
    ensures t in After(cfg, c, st, steps).draining
    decreases |steps|
  {
    if steps != [] {
      assert steps[0] in steps;
      StepKeepsTaken(cfg, c, st, steps[0], t);
      TakenIsSaved(cfg, c, Next(cfg, c, st, steps[0]), steps[1..], t);
    }
  }

  /**
    A table that the duty task has taken over is in flash once it is done, whatever writers do in
    between: as its mirror was at the moment of its last save.
   */
  lemma DrainSaves(cfg: Config, c: Counter, st: Plant, steps: seq<Step>, t: nat) returns (n: nat)
    requires PlantOk(cfg, st) && IsCounter(cfg, c) && Possible(cfg, c, st, steps) && t < |cfg.tables|
    requires t in st.draining && t !in After(cfg, c, st, steps).draining
    requires SaveFails(t) !in steps && PowerCycle !in steps
    ensures LastSave(cfg, c, st, steps, t, n)
  {
    var last := BlobIsLastSave(cfg, c, st, steps, t);
    if last == None {
      TakenIsSaved(cfg, c, st, steps, t);
    }
    n := last.value;
  }

  /**
    The count of flash writes is itself a saved register, but no save copies it to its
    mirror: a save and a restart bring back the count of its last copy.
   */
  lemma CountIsNotSaved(cfg: Config, c: Counter, sound: set<nat>, gaps: Gaps, st: Plant)
    requires Invariant(cfg, sound, gaps, st) && IsCounter(cfg, c)
    requires Reg(cfg, c.table, c.index).saving && c.table in sound
    ensures var d := Reg(cfg, c.table, c.index);
            var saved := Saves(cfg, c, st, c.table, true);
            && d.End() <= |st.mem| && d.savedAddress + d.Bytes() <= |st.mirrors[c.table]|
            && Current(saved.mem, d) == Incremented(Current(st.mem, d))
            && Current(Restarted(cfg, |st.mem|, saved.flash, 0).mem, d) == Slot(st.mirrors[c.table], d)
  {
    var d, t := Reg(cfg, c.table, c.index), c.table;
    var saved := Saves(cfg, c, st, t, true);
    RegOk(cfg, |st.mem|, t, c.index);
    SliceOfSplice(st.mem, d.address, Incremented(Current(st.mem, d)));
    assert TableSound(cfg, st, t);
    SavedMirrorRestores(cfg, cfg.tables[t], st.mirrors[t], Zeros(cfg.tables[t].bufferSize));
    RestartAgrees(cfg, |st.mem|, saved.flash, t, c.index);
  }

  /** None of the tables in `gaps` is due for saving. */
  predicate NoneDue(gaps: Gaps, st: Plant) {
    forall t :: t in gaps.unsaved ==> !SaveDue(st, t)
  }

  lemma {:induction false} GapsAreNotDue(cfg: Config, c: Counter, gaps: Gaps, st: Plant, steps: seq<Step>)
    requires PlantOk(cfg, st) && IsCounter(cfg, c) && Possible(cfg, c, st, steps) && NoneDue(gaps, st)
    ensures NoneDue(GapsIn(cfg, c, gaps, st, steps), After(cfg, c, st, steps))
    decreases |steps|
  {
    if steps != [] {
      GapsAreNotDue(cfg, c, GapsAfter(cfg, c, gaps, st, steps[0]), Next(cfg, c, st, steps[0]), steps[1..]);
    }
  }

  /**
    A failed save is forgotten: over every run, what a start would not bring back of a table that
    persists is uncovered exactly when a save of it failed and nobody has asked for the table or
    saved it since.
   */
  lemma FailedSaveIsForgotten(cfg: Config, c: Counter, sound: set<nat>, gaps: Gaps, st: Plant, steps: seq<Step>, t: nat)
    requires Invariant(cfg, sound, gaps, st) && NoneDue(gaps, st) && IsCounter(cfg, c) && Possible(cfg, c, st, steps)
    requires t in sound && t < |cfg.tables|
    ensures var last := After(cfg, c, st, steps);
            last.mirrors[t] != RestartMirror(cfg, |last.mem|, last.flash[t], t) ==>
              (!Covered(cfg, last, t) <==> t in GapsIn(cfg, c, gaps, st, steps).unsaved)
  {
    NoLostSave(cfg, c, sound, gaps, st, steps);
    GapsAreNotDue(cfg, c, gaps, st, steps);
  }

  // ------------------------------------------------------------------ crash consistency

  /** A blob that was there at the start or one that a start accepts. */
  predicate Accountable(cfg: Config, first: seq<Flash>, st: Plant, t: nat)
    requires PlantOk(cfg, st) && |first| == |cfg.tables| && t < |cfg.tables|
  {
    assert TableOk(cfg.tables[t]);
    st.flash[t] == first[t] || Restores(cfg, cfg.tables[t], st.flash[t])
  }

  lemma StepKeepsAccountable(cfg: Config, c: Counter, first: seq<Flash>, st: Plant, step: Step, t: nat)
    requires PlantOk(cfg, st) && IsCounter(cfg, c) && Enabled(cfg, st, step)
    requires |first| == |cfg.tables| && t < |cfg.tables| && Accountable(cfg, first, st, t) && TableSound(cfg, st, t)
    ensures Accountable(cfg, first, Next(cfg, c, st, step), t)
  {
    StepFlash(cfg, c, st, step, t);
    SavedMirrorRestores(cfg, cfg.tables[t], st.mirrors[t], Zeros(cfg.tables[t].bufferSize));
  }

  /**
    Crash consistency: wherever a run of stores, saves, failed saves and power failures is cut,
    the flash holds, for a table that persists, what it held at first or a complete blob that the
    next start accepts.
   */
  lemma {:induction false} FlashIsAccountable(cfg: Config, c: Counter, sound: set<nat>, gaps: Gaps,
                                              first: seq<Flash>, st: Plant, steps: seq<Step>, t: nat)
    requires Invariant(cfg, sound, gaps, st) && IsCounter(cfg, c) && Possible(cfg, c, st, steps)
    requires |first| == |cfg.tables| && t < |cfg.tables| && t in sound && Accountable(cfg, first, st, t)
    ensures Accountable(cfg, first, After(cfg, c, st, steps), t)
    decreases |steps|
  {
    if steps != [] {
      assert TableSound(cfg, st, t);
      StepKeepsAccountable(cfg, c, first, st, steps[0], t);
      StepKeepsInvariant(cfg, c, sound, gaps, st, steps[0]);
      var next, left := Next(cfg, c, st, steps[0]), GapsAfter(cfg, c, gaps, st, steps[0]);
      FlashIsAccountable(cfg, c, sound, left, first, next, steps[1..], t);
    }
  }

  /** What a start makes of its flash: one blob for all saved registers of a table, or none. */
  lemma StartFinds(cfg: Config, memSize: nat, flash: seq<Flash>, t: nat, i: nat)
    requires ConfigOk(cfg, memSize) && |flash| == |cfg.tables| && IsReg(cfg, t, i)
    ensures Reg(cfg, t, i).Ok() && Reg(cfg, t, i).End() <= memSize && TableOk(cfg.tables[t])
    ensures Reg(cfg, t, i).saving ==> Reg(cfg, t, i).savedAddress + Reg(cfg, t, i).Bytes() <= cfg.tables[t].bufferSize
    ensures var d, m := Reg(cfg, t, i), RestartMirror(cfg, memSize, flash[t], t);
            && |m| >= 4 && CrcValid(cfg, m)
            && (d.saving ==> Slot(m, d) == Current(RestartMem(cfg, memSize, flash), d))
            && Current(RestartMem(cfg, memSize, flash), d) ==
               if d.saving && Restores(cfg, cfg.tables[t], flash[t]) then Slot(flash[t].value, d) else d.Default()
  {
    RegOk(cfg, memSize, t, i);
    RestartHolds(cfg, memSize, flash, t, i);
    BootConsistent(cfg, cfg.tables[t], Zeros(cfg.tables[t].bufferSize), flash[t], i);
  }

  /**
    What the start after any such run finds: all saved registers of a table take their values
    from one blob, or all take their defaults; the others always take their defaults.
   */
  lemma StartAfterCrash(cfg: Config, c: Counter, sound: set<nat>, gaps: Gaps, first: seq<Flash>, st: Plant,
                        steps: seq<Step>, t: nat, i: nat)
    requires Invariant(cfg, sound, gaps, st) && IsCounter(cfg, c) && Possible(cfg, c, st, steps)
    requires |first| == |cfg.tables| && IsReg(cfg, t, i) && st.flash == first
    ensures Reg(cfg, t, i).Ok() && Reg(cfg, t, i).End() <= |st.mem| && TableOk(cfg.tables[t])
    ensures Reg(cfg, t, i).saving ==> Reg(cfg, t, i).savedAddress + Reg(cfg, t, i).Bytes() <= cfg.tables[t].bufferSize
    ensures var flash, d := After(cfg, c, st, steps).flash, Reg(cfg, t, i);
            var m := RestartMirror(cfg, |st.mem|, flash[t], t);
            && (t in sound ==> flash[t] == first[t] || Restores(cfg, cfg.tables[t], flash[t]))
            && Current(RestartMem(cfg, |st.mem|, flash), d) ==
               (if d.saving && Restores(cfg, cfg.tables[t], flash[t]) then Slot(flash[t].value, d) else d.Default())
            && |m| >= 4 && CrcValid(cfg, m)
            && (d.saving ==> Slot(m, d) == Current(RestartMem(cfg, |st.mem|, flash), d))
  {
    if t in sound {
      FlashIsAccountable(cfg, c, sound, gaps, first, st, steps, t);
    }
    StartFinds(cfg, |st.mem|, After(cfg, c, st, steps).flash, t, i);
  }
}
