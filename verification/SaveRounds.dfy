/**
  What the duty task and the writers do to the requests, the flash and the count of saves
  (main/mirror_storage.c:95-118, 164-169, 207-241 and main/common.c:167-186): nothing is asked for
  without a change, a round leaves nothing to do, and every save is counted.
 */
module SaveRounds {
  import opened Bits
  import opened Memory
  import opened Registers
  import opened Kinds
  import opened WritePath
  import opened WriteLaws
  import opened SaveProtocol
  import opened SaveLaws

  // ------------------------------------------------------------------------------- asking

  /** The slot of a saved register holds what memory holds. */
  predicate SlotAgrees(cfg: Config, st: Plant, t: nat, i: nat)
    requires PlantOk(cfg, st) && IsReg(cfg, t, i) && Reg(cfg, t, i).saving
  {
    var d := Reg(cfg, t, i);
    RegOk(cfg, |st.mem|, t, i);
    st.mirrors[t][d.savedAddress..d.savedAddress + d.Bytes()] == st.mem[d.address..d.End()]
  }

  lemma CopiedSlotAgrees(cfg: Config, st: Plant, w: nat)
    requires PlantOk(cfg, st) && w < |st.writers| && st.writers[w].Stored?
    requires Reg(cfg, st.writers[w].table, st.writers[w].index).saving
    requires !SlotAgrees(cfg, st, st.writers[w].table, st.writers[w].index)
    ensures var t, i, r := st.writers[w].table, st.writers[w].index, Copies(cfg, st, w);
            && r == st.(mirrors := st.mirrors[t := r.mirrors[t]], writers := st.writers[w := Requesting(t)])
            && SlotAgrees(cfg, r, t, i)
  {
    var t, i := st.writers[w].table, st.writers[w].index;
    RegOk(cfg, |st.mem|, t, i);
    RefreshedSlots(cfg, |st.mem|, t, i, i, st.mirrors[t], Current(st.mem, Reg(cfg, t, i)));
  }

  lemma NothingToCopy(cfg: Config, st: Plant, w: nat)
    requires PlantOk(cfg, st) && w < |st.writers| && st.writers[w].Stored?
    requires var t, i := st.writers[w].table, st.writers[w].index;
             Reg(cfg, t, i).saving ==> SlotAgrees(cfg, st, t, i)
    ensures Copies(cfg, st, w) == st.(writers := st.writers[w := Idle])
  {
    RegOk(cfg, |st.mem|, st.writers[w].table, st.writers[w].index);
  }

  /**
    A copy that changes nothing asks for nothing: the writer goes on to a request exactly when its
    register is saved and its slot differs, and otherwise nothing but the writer has changed.
   */
  lemma UnchangedIsNotSaved(cfg: Config, st: Plant, w: nat)
    requires PlantOk(cfg, st) && Enabled(cfg, st, CopyToMirror(w))
    ensures var t, i, r := st.writers[w].table, st.writers[w].index, Copies(cfg, st, w);
            if Reg(cfg, t, i).saving && !SlotAgrees(cfg, st, t, i) then
              && r == st.(mirrors := st.mirrors[t := r.mirrors[t]], writers := st.writers[w := Requesting(t)])
              && SlotAgrees(cfg, r, t, i)
            else r == st.(writers := st.writers[w := Idle])
  {
    var t, i := st.writers[w].table, st.writers[w].index;
    if Reg(cfg, t, i).saving && !SlotAgrees(cfg, st, t, i) {
      CopiedSlotAgrees(cfg, st, w);
    } else {
      NothingToCopy(cfg, st, w);
    }
  }

  /** Before a deep sleep each of up to 32 tables is asked for. */
  lemma EveryTableIsAsked(cfg: Config, c: Counter, st: Plant, t: nat)
    requires PlantOk(cfg, st) && IsCounter(cfg, c)
    ensures t < 32 ==> SaveDue(Next(cfg, c, st, RequestAll), t)
    ensures t >= 32 && t !in st.tableToSave ==> t !in Next(cfg, c, st, RequestAll).tableToSave
  {
    assert t < 32 ==> HasBit(t) && t in AllTables();
  }

  /** After a power failure nothing is asked for and nobody is writing; the flash is as it was. */
  lemma PowerCycleForgets(cfg: Config, c: Counter, st: Plant)
    requires PlantOk(cfg, st) && IsCounter(cfg, c)
    ensures var r := Next(cfg, c, st, PowerCycle);
            && r.flash == st.flash && |r.writers| == |st.writers|
            && (forall t :: !SaveDue(r, t)) && forall w :: 0 <= w < |r.writers| ==> r.writers[w] == Idle
  {
  }

  // -------------------------------------------------------------------------------- rounds

  /** A step that asks for no table. */
  predicate AsksNothing(step: Step) {
    !step.RequestSave? && step != RequestAll
  }

  /** Nothing is asked for but what writers are about to ask for and what is in the duty task's hands. */
  predicate NothingAsked(st: Plant) {
    !st.saveRequested && st.tableToSave == {}
  }

  lemma {:induction false} QuietStaysQuiet(cfg: Config, c: Counter, st: Plant, steps: seq<Step>)
    requires PlantOk(cfg, st) && IsCounter(cfg, c) && Possible(cfg, c, st, steps) && NothingAsked(st)
    requires forall k :: 0 <= k < |steps| ==> AsksNothing(steps[k])
    ensures NothingAsked(After(cfg, c, st, steps))
    decreases |steps|
  {
    if steps != [] {
      assert AsksNothing(steps[0]);
      QuietStaysQuiet(cfg, c, Next(cfg, c, st, steps[0]), steps[1..]);
    }
  }

  /** The requests are taken over all at once, when the flag is set, and left alone otherwise. */
  lemma TakenAtOnce(cfg: Config, c: Counter, st: Plant)
    requires PlantOk(cfg, st) && IsCounter(cfg, c) && Enabled(cfg, st, TakeRequests)
    ensures var r := Next(cfg, c, st, TakeRequests);
            if st.saveRequested then
              NothingAsked(r) && r == st.(saveRequested := false, tableToSave := {}, draining := st.tableToSave)
            else r == st
  {
  }

  /**
    A round of the duty task that nobody interrupts with a request leaves nothing due: no table is
    asked for any more, but those that a writer has changed and not asked for yet.
   */
  lemma RoundLeavesNothingDue(cfg: Config, c: Counter, st: Plant, steps: seq<Step>, t: nat)
    requires PlantOk(cfg, st) && IsCounter(cfg, c) && Possible(cfg, c, st, [TakeRequests] + steps)
    requires st.saveRequested && forall k :: 0 <= k < |steps| ==> AsksNothing(steps[k])
    requires After(cfg, c, st, [TakeRequests] + steps).draining == {}
    ensures var r := After(cfg, c, st, [TakeRequests] + steps); SaveDue(r, t) ==> Requesting(t) in r.writers
  {
    assert ([TakeRequests] + steps)[1..] == steps;
    TakenAtOnce(cfg, c, st);
    QuietStaysQuiet(cfg, c, Next(cfg, c, st, TakeRequests), steps);
  }

  // --------------------------------------------------------------------------------- count

  /** The count of saves in memory. */
  function CountOf(cfg: Config, c: Counter, mem: seq<byte>): nat
    requires ConfigOk(cfg, |mem|) && IsCounter(cfg, c)
  {
    RegOk(cfg, |mem|, c.table, c.index);
    Unsigned(Current(mem, Reg(cfg, c.table, c.index)))
  }

  /** A save of a table that exists, whether it reaches the flash or not. */
  predicate IsSave(cfg: Config, step: Step) {
    (step.SaveTable? || step.SaveFails?) && step.table < |cfg.tables|
  }

  function SavesIn(cfg: Config, steps: seq<Step>): nat {
    if steps == [] then 0 else (if IsSave(cfg, steps[0]) then 1 else 0) + SavesIn(cfg, steps[1..])
  }

  /** Nobody but the duty task writes the count, and the power stays on. */
  predicate LeavesCount(c: Counter, step: Step) {
    && step != PowerCycle
    && (step.StoreValue? || step.StorePlainly? ==> (step.table, step.index) != (c.table, c.index))
  }

  /** The count stops at the largest number of 32 bits. */
  function Counted(n: nat): nat {
    if n <= 4294967295 then n else 4294967295
  }

  lemma IncrementedCounts(v: seq<byte>)
    requires |v| == 4
    ensures Unsigned(v) <= 4294967295 && Unsigned(Incremented(v)) == Counted(Unsigned(v) + 1)
  {
    var n := Value(v);
    ValueIsUnsigned(v);
    ValueIsUnsigned(Incremented(v));
    ValueBound(v);
    PatternCounts();
    ValueEncoded(if n < 0xffffffff then n + 1 else n, 4);
  }

  lemma OneSaveCounts(cfg: Config, c: Counter, st: Plant, t: nat, succeeds: bool)
    requires PlantOk(cfg, st) && IsCounter(cfg, c)
    ensures CountOf(cfg, c, Saves(cfg, c, st, t, succeeds).mem) ==
            Counted(CountOf(cfg, c, st.mem) + if t < |cfg.tables| then 1 else 0)
  {
    var d := Reg(cfg, c.table, c.index);
    RegOk(cfg, |st.mem|, c.table, c.index);
    IncrementedCounts(Current(st.mem, d));
    SliceOfSplice(st.mem, d.address, Incremented(Current(st.mem, d)));
  }

  lemma StoreLeavesCount(cfg: Config, c: Counter, mem: seq<byte>, t: nat, i: nat, v: seq<byte>)
    requires ConfigOk(cfg, |mem|) && IsCounter(cfg, c) && IsReg(cfg, t, i) && |v| == Reg(cfg, t, i).Bytes()
    requires (t, i) != (c.table, c.index)
    ensures Reg(cfg, t, i).End() <= |mem|
    ensures CountOf(cfg, c, Splice(mem, Reg(cfg, t, i).address, v)) == CountOf(cfg, c, mem)
  {
    RegOk(cfg, |mem|, t, i);
    StoreKeepsRegister(cfg, mem, t, i, v, c.table, c.index);
  }

  lemma CountStays(cfg: Config, c: Counter, mem: seq<byte>)
    requires ConfigOk(cfg, |mem|) && IsCounter(cfg, c)
    ensures Counted(CountOf(cfg, c, mem)) == CountOf(cfg, c, mem)
  {
    RegOk(cfg, |mem|, c.table, c.index);
    IncrementedCounts(Current(mem, Reg(cfg, c.table, c.index)));
  }

  lemma OtherStepLeavesCount(cfg: Config, c: Counter, st: Plant, step: Step)
    requires PlantOk(cfg, st) && IsCounter(cfg, c) && Enabled(cfg, st, step) && LeavesCount(c, step)
    requires !step.SaveTable? && !step.SaveFails?
    ensures CountOf(cfg, c, Next(cfg, c, st, step).mem) == CountOf(cfg, c, st.mem)
  {
    if step.StoreValue? || step.StorePlainly? {
      StoreLeavesCount(cfg, c, st.mem, step.table, step.index, step.value);
    } else {
      assert Next(cfg, c, st, step).mem == st.mem;
    }
  }

  lemma StepCounts(cfg: Config, c: Counter, st: Plant, step: Step)
    requires PlantOk(cfg, st) && IsCounter(cfg, c) && Enabled(cfg, st, step) && LeavesCount(c, step)
    ensures CountOf(cfg, c, Next(cfg, c, st, step).mem) ==
            Counted(CountOf(cfg, c, st.mem) + if IsSave(cfg, step) then 1 else 0)
  {
    if step.SaveTable? || step.SaveFails? {
      OneSaveCounts(cfg, c, st, step.table, step.SaveTable?);
    } else {
      CountStays(cfg, c, st.mem);
      OtherStepLeavesCount(cfg, c, st, step);
    }
  }

  /** What the steps behind the first one count, they count for all. */
  lemma CountsOn(cfg: Config, c: Counter, st: Plant, steps: seq<Step>)
    requires PlantOk(cfg, st) && IsCounter(cfg, c) && steps != [] && Possible(cfg, c, st, steps)
    ensures CountOf(cfg, c, After(cfg, c, st, steps).mem) ==
            CountOf(cfg, c, After(cfg, c, Next(cfg, c, st, steps[0]), steps[1..]).mem)
  {
  }

  /**
    The register `flash_write_number` counts the saves of every run in which nobody else writes it,
    failed saves among them, and stops at the largest number of 32 bits.
   */
  lemma {:induction false} SavesAreCounted(cfg: Config, c: Counter, st: Plant, steps: seq<Step>)
    requires PlantOk(cfg, st) && IsCounter(cfg, c) && Possible(cfg, c, st, steps)
    requires forall k :: 0 <= k < |steps| ==> LeavesCount(c, steps[k])
    ensures CountOf(cfg, c, After(cfg, c, st, steps).mem) == Counted(CountOf(cfg, c, st.mem) + SavesIn(cfg, steps))
    decreases |steps|
  {
    if steps == [] {
      CountStays(cfg, c, st.mem);
    } else {
      assert LeavesCount(c, steps[0]);
      StepCounts(cfg, c, st, steps[0]);
      SavesAreCounted(cfg, c, Next(cfg, c, st, steps[0]), steps[1..]);
      CountsOn(cfg, c, st, steps);
    }
  }
}
