/**
  Bounded values stay inside their bounds across saves, failed saves and power cycles, because
  whatever the write path stores is clamped.
 */
module SaveBounds {
  import opened Bits
  import opened Memory
  import opened Registers
  import opened WritePath
  import opened WriteLaws
  import opened Boot
  import opened SaveProtocol
  import opened SaveLaws
  import opened SaveTheorems

  // ------------------------------------------------------------------------ safe values

  /** All elements of a register's value are inside their bounds. */
  predicate Fits(d: Register, value: seq<byte>)
    requires d.Ok() && |value| == d.Bytes()
  {
    forall index :: 0 <= index < d.size ==> FitsAt(d, value, index)
  }

  predicate FitsAt(d: Register, value: seq<byte>, index: nat)
    requires d.Ok() && |value| == d.Bytes() && index < d.size
  {
    ScaleMonotone(index, d.size, d.kind);
    InBounds(d, index, Decode(d.kind, Element(value, d.kind, index)))
  }

  /** Register (t, i) fits its bounds in memory, in its mirror and in the blob a start accepts. */
  predicate FitsEverywhere(cfg: Config, st: Plant, t: nat, i: nat)
    requires PlantOk(cfg, st) && IsReg(cfg, t, i)
  {
    var d := Reg(cfg, t, i);
    RegOk(cfg, |st.mem|, t, i);
    assert TableOk(cfg.tables[t]);
    && Fits(d, Current(st.mem, d))
    && (d.saving ==> Fits(d, Slot(st.mirrors[t], d)))
    && (d.saving && Restores(cfg, cfg.tables[t], st.flash[t]) ==> Fits(d, Slot(st.flash[t].value, d)))
  }

  /** A value that fits and is saved still fits. */
  lemma SavesFits(cfg: Config, c: Counter, st: Plant, t: nat, succeeds: bool, u: nat, j: nat)
    requires PlantOk(cfg, st) && IsCounter(cfg, c) && IsReg(cfg, u, j) && FitsEverywhere(cfg, st, u, j)
    requires Counter(u, j) == c ==> Reg(cfg, u, j).minValue == None && Reg(cfg, u, j).maxValue == None
    ensures FitsEverywhere(cfg, Saves(cfg, c, st, t, succeeds), u, j)
  {
    RegOk(cfg, |st.mem|, u, j);
    StoreKeepsRegister(cfg, st.mem, c.table, c.index, Incremented(Current(st.mem, Reg(cfg, c.table, c.index))), u, j);
  }

  lemma PutsFits(cfg: Config, st: Plant, t: nat, i: nat, v: seq<byte>, u: nat, j: nat)
    requires PlantOk(cfg, st) && IsReg(cfg, t, i) && |v| == Reg(cfg, t, i).Bytes()
    requires IsReg(cfg, u, j) && FitsEverywhere(cfg, st, u, j)
    requires Reg(cfg, t, i).Ok() && (t == u && i == j ==> Fits(Reg(cfg, t, i), v))
    ensures FitsEverywhere(cfg, Puts(cfg, st, t, i, v), u, j)
  {
    RegOk(cfg, |st.mem|, t, i);
    StoreKeepsRegister(cfg, st.mem, t, i, v, u, j);
    SliceOfSplice(st.mem, Reg(cfg, t, i).address, v);
  }

  lemma CopiesFits(cfg: Config, st: Plant, w: nat, u: nat, j: nat)
    requires PlantOk(cfg, st) && w < |st.writers| && st.writers[w].Stored?
    requires IsReg(cfg, u, j) && FitsEverywhere(cfg, st, u, j)
    ensures FitsEverywhere(cfg, Copies(cfg, st, w), u, j)
  {
    var t, i := st.writers[w].table, st.writers[w].index;
    RegOk(cfg, |st.mem|, t, i);
    RegOk(cfg, |st.mem|, u, j);
    if t == u && Reg(cfg, t, i).saving && Reg(cfg, u, j).saving {
      RefreshedSlots(cfg, |st.mem|, t, i, j, st.mirrors[t], Current(st.mem, Reg(cfg, t, i)));
    }
  }

  lemma RestartFits(cfg: Config, st: Plant, u: nat, j: nat)
    requires PlantOk(cfg, st) && IsReg(cfg, u, j) && FitsEverywhere(cfg, st, u, j)
    requires Reg(cfg, u, j).Ok() && Fits(Reg(cfg, u, j), Reg(cfg, u, j).Default())
    ensures FitsEverywhere(cfg, Restarted(cfg, |st.mem|, st.flash, |st.writers|), u, j)
  {
    StartFinds(cfg, |st.mem|, st.flash, u, j);
  }

  /** What a step may store into register (t, i), if it stores there. */
  predicate StepFits(cfg: Config, memSize: nat, step: Step, t: nat, i: nat)
    requires ConfigOk(cfg, memSize) && IsReg(cfg, t, i)
  {
    RegOk(cfg, memSize, t, i);
    (step.StoreValue? || step.StorePlainly?) && step.table == t && step.index == i
    && |step.value| == Reg(cfg, t, i).Bytes() ==>
      Fits(Reg(cfg, t, i), step.value)
  }

  lemma StepKeepsFits(cfg: Config, c: Counter, st: Plant, step: Step, t: nat, i: nat)
    requires PlantOk(cfg, st) && IsCounter(cfg, c) && Enabled(cfg, st, step)
    requires IsReg(cfg, t, i) && Reg(cfg, t, i).Ok() && Fits(Reg(cfg, t, i), Reg(cfg, t, i).Default())
    requires Counter(t, i) == c ==> Reg(cfg, t, i).minValue == None && Reg(cfg, t, i).maxValue == None
    requires FitsEverywhere(cfg, st, t, i) && StepFits(cfg, |st.mem|, step, t, i)
    ensures FitsEverywhere(cfg, Next(cfg, c, st, step), t, i)
  {
    match step
    case StoreValue(_, u, j, v) =>
      RegOk(cfg, |st.mem|, u, j);
      PutsFits(cfg, st, u, j, v, t, i);
    case CopyToMirror(w) => CopiesFits(cfg, st, w, t, i);
    case RequestSave(_) =>
    case StorePlainly(u, j, v) =>
      RegOk(cfg, |st.mem|, u, j);
      PutsFits(cfg, st, u, j, v, t, i);
    case RequestAll =>
    case TakeRequests =>
    case SaveTable(u) => SavesFits(cfg, c, st, u, true, t, i);
    case SaveFails(u) => SavesFits(cfg, c, st, u, false, t, i);
    case PowerCycle => RestartFits(cfg, st, t, i);
  }

  // ------------------------------------------------------------ a commit, step by step

  /** A change inside a slice is the slice stored back. */
  lemma StoredBack(m: seq<byte>, at: nat, bytes: seq<byte>, p: nat, n: nat)
    requires p <= at && at + |bytes| <= p + n <= |m|
    ensures Splice(m, p, Slice(Splice(m, at, bytes), p, n)) == Splice(m, at, bytes)
  {
    SpliceParts(m, at, bytes);
    SpliceParts(m, p, Slice(Splice(m, at, bytes), p, n));
  }

  /** The three steps of a writer, one after the other. */
  function WriterSteps(cfg: Config, st: Plant, w: nat, t: nat, i: nat, v: seq<byte>): Plant
    requires PlantOk(cfg, st) && w < |st.writers| && IsReg(cfg, t, i) && |v| == Reg(cfg, t, i).Bytes()
  {
    var copied := Copies(cfg, Stores(cfg, st, w, t, i, v), w);
    if copied.writers[w].Requesting? then Requests(cfg, copied, w) else copied
  }

  /** Plant and store share memory, mirrors and save requests. */
  predicate Shares(st: Plant, s: Store) {
    st.mem == s.mem && st.mirrors == s.mirrors && st.tableToSave == s.tableToSave && st.saveRequested == s.saveRequested
  }

  /** Copy and request are what the write path does in `mirror_access_write`. */
  lemma MirrorWriteIsSteps(cfg: Config, s: Store, st: Plant, w: nat, t: nat, i: nat)
    requires StoreOk(cfg, s) && PlantOk(cfg, st) && Shares(st, s) && IsReg(cfg, t, i)
    requires w < |st.writers| && st.writers[w] == Stored(t, i)
    ensures |s.mirrors[t]| >= 4 && Reg(cfg, t, i).End() <= |s.mem|
    ensures var copied := Copies(cfg, st, w);
            var done := if copied.writers[w].Requesting? then Requests(cfg, copied, w) else copied;
            Shares(done, MirrorWrite(cfg, s, t, Reg(cfg, t, i))) && done.writers == st.writers[w := Idle]
            && done.flash == st.flash && done.draining == st.draining
  {
    RegOk(cfg, |s.mem|, t, i);
  }

  /** Beyond copying and requesting only the credential permission can change. */
  lemma HandleSetsCredential(cfg: Config, s: Store, t: nat, i: nat)
    requires StoreOk(cfg, s) && IsReg(cfg, t, i)
    ensures |s.mirrors[t]| >= 4 && Reg(cfg, t, i).End() <= |s.mem|
    ensures var r := HandleSets(cfg, s, t, Reg(cfg, t, i));
            r.mem == s.mem && r == MirrorWrite(cfg, s, t, Reg(cfg, t, i)).(credentialEnabled := r.credentialEnabled)
  {
    MirrorWriteFrame(cfg, s, t, i);
  }

  /** A commit changes the memory of its register, then copies and requests. */
  lemma CommitIsMirrorWrite(cfg: Config, s: Store, t: nat, i: nat, e: nat, bytes: seq<byte>) returns (stored: Store)
    requires StoreOk(cfg, s) && IsReg(cfg, t, i)
    requires Reg(cfg, t, i).Holds(e) && ElementStart(Reg(cfg, t, i), e) == e && |bytes| == Reg(cfg, t, i).Item()
    ensures StoreOk(cfg, stored) && stored == s.(mem := stored.mem) && |stored.mem| == |s.mem|
    ensures Reg(cfg, t, i).End() <= |s.mem| && |s.mirrors[t]| >= 4
    ensures stored.mem == Splice(s.mem, Reg(cfg, t, i).address, Current(stored.mem, Reg(cfg, t, i)))
    ensures var after := Commit(cfg, s, t, i, e, bytes).0;
            && after == MirrorWrite(cfg, stored, t, Reg(cfg, t, i)).(credentialEnabled := after.credentialEnabled)
            && after.mem == stored.mem
  {
    var d := Reg(cfg, t, i);
    CommitMemory(cfg, s, t, i, e, bytes);
    ElementInside(d, e);
    var checked := ClampBytes(d, ElementIndex(d, e), bytes);
    stored := if Accepted(cfg, d, checked) then s.(mem := Splice(s.mem, e, checked)) else s;
    HandleSetsCredential(cfg, stored, t, i);
    StoredBack(s.mem, e, checked, d.address, d.Bytes());
    SpliceSame(s.mem, d.address, d.Bytes());
  }

  /** A commit of the write path is the three steps of one writer, in this order. */
  lemma CommitIsSteps(cfg: Config, s: Store, st: Plant, w: nat, t: nat, i: nat, e: nat, bytes: seq<byte>)
    requires StoreOk(cfg, s) && PlantOk(cfg, st) && Shares(st, s) && IsReg(cfg, t, i)
    requires Reg(cfg, t, i).Holds(e) && ElementStart(Reg(cfg, t, i), e) == e && |bytes| == Reg(cfg, t, i).Item()
    requires w < |st.writers| && st.writers[w] == Idle
    ensures var after := Commit(cfg, s, t, i, e, bytes).0;
            && |after.mem| == |s.mem| && Reg(cfg, t, i).End() <= |after.mem|
            && var done := WriterSteps(cfg, st, w, t, i, Current(after.mem, Reg(cfg, t, i)));
               && Shares(done, after) && done.writers == st.writers
               && done.flash == st.flash && done.draining == st.draining
  {
    var d := Reg(cfg, t, i);
    var stored := CommitIsMirrorWrite(cfg, s, t, i, e, bytes);
    MirrorWriteIsSteps(cfg, stored, Stores(cfg, st, w, t, i, Current(stored.mem, d)), w, t, i);
  }

  /** What a commit stores fits, if what it found did. */
  lemma CommitFits(cfg: Config, s: Store, t: nat, i: nat, e: nat, bytes: seq<byte>)
    requires StoreOk(cfg, s) && IsReg(cfg, t, i) && Reg(cfg, t, i).Ok() && BoundsOrdered(Reg(cfg, t, i))
    requires Reg(cfg, t, i).Holds(e) && ElementStart(Reg(cfg, t, i), e) == e && |bytes| == Reg(cfg, t, i).Item()
    requires Reg(cfg, t, i).End() <= |s.mem| && Fits(Reg(cfg, t, i), Current(s.mem, Reg(cfg, t, i)))
    ensures Reg(cfg, t, i).End() <= |Commit(cfg, s, t, i, e, bytes).0.mem|
    ensures Fits(Reg(cfg, t, i), Current(Commit(cfg, s, t, i, e, bytes).0.mem, Reg(cfg, t, i)))
  {
    var d := Reg(cfg, t, i);
    CommitMemory(cfg, s, t, i, e, bytes);
    var q := ElementIndex(d, e);
    var checked := ClampBytes(d, q, bytes);
    var stored := if Accepted(cfg, d, checked) then s.(mem := Splice(s.mem, e, checked)) else s;
    HandleSetsFrame(cfg, stored, t, i);
    ClampBytesInBounds(d, q, bytes);
    forall index | 0 <= index < d.size ensures FitsAt(d, Current(stored.mem, d), index) {
      assert FitsAt(d, Current(s.mem, d), index);
      ElementsAfterStore(cfg, s.mem, t, i, e, checked, t, i, index);
    }
  }

  // --------------------------------------------------------------------- checked runs

  /** `value` is what a commit of the write path leaves in register (t, i) of this plant. */
  predicate CommitLeaves(cfg: Config, st: Plant, t: nat, i: nat, credential: bool, e: nat, bytes: seq<byte>,
                         value: seq<byte>)
    requires PlantOk(cfg, st) && IsReg(cfg, t, i)
  {
    var d, s := Reg(cfg, t, i), Store(st.mem, st.mirrors, st.tableToSave, st.saveRequested, credential);
    && d.Holds(e) && ElementStart(d, e) == e && |bytes| == d.Item()
    && d.End() <= |Commit(cfg, s, t, i, e, bytes).0.mem|
    && value == Current(Commit(cfg, s, t, i, e, bytes).0.mem, d)
  }

  /**
    What the step stores into register (t, i), if anything, went through the write path; a plain
    store, which no bounds are applied to, must carry a value in bounds itself.
   */
  ghost predicate CheckedStep(cfg: Config, st: Plant, step: Step, t: nat, i: nat)
    requires PlantOk(cfg, st) && IsReg(cfg, t, i)
  {
    && (step.StoreValue? && step.table == t && step.index == i ==>
          exists credential, e, bytes :: CommitLeaves(cfg, st, t, i, credential, e, bytes, step.value))
    && (step.StorePlainly? ==> StepFits(cfg, |st.mem|, step, t, i))
  }

  /** All stores of the run into register (t, i) are checked, each from the state it found. */
  ghost predicate CheckedRun(cfg: Config, c: Counter, st: Plant, steps: seq<Step>, t: nat, i: nat)
    requires PlantOk(cfg, st) && IsCounter(cfg, c) && Possible(cfg, c, st, steps) && IsReg(cfg, t, i)
    decreases |steps|
  {
    steps != [] ==>
      && CheckedStep(cfg, st, steps[0], t, i)
      && CheckedRun(cfg, c, Next(cfg, c, st, steps[0]), steps[1..], t, i)
  }

  /** Defaults and bounds of a register make sense; the count of flash writes is not clamped. */
  predicate BoundsMakeSense(cfg: Config, c: Counter, memSize: nat, t: nat, i: nat)
    requires ConfigOk(cfg, memSize) && IsReg(cfg, t, i)
  {
    var d := Reg(cfg, t, i);
    RegOk(cfg, memSize, t, i);
    && BoundsOrdered(d) && Fits(d, d.Default())
    && (Counter(t, i) == c ==> d.minValue == None && d.maxValue == None)
  }

  lemma CheckedStepFits(cfg: Config, st: Plant, step: Step, t: nat, i: nat)
    requires PlantOk(cfg, st) && IsReg(cfg, t, i) && Reg(cfg, t, i).Ok() && BoundsOrdered(Reg(cfg, t, i))
    requires FitsEverywhere(cfg, st, t, i) && CheckedStep(cfg, st, step, t, i)
    ensures StepFits(cfg, |st.mem|, step, t, i)
  {
    RegOk(cfg, |st.mem|, t, i);
    if step.StoreValue? && step.table == t && step.index == i {
      var credential, e, bytes :| CommitLeaves(cfg, st, t, i, credential, e, bytes, step.value);
      CommitFits(cfg, Store(st.mem, st.mirrors, st.tableToSave, st.saveRequested, credential), t, i, e, bytes);
    }
  }

  /**
    A bounded register stays inside its bounds, in memory, mirror and flash, over every run of
    checked writes, saves, failed saves and power cycles.
   */
  lemma {:induction false} BoundsSurvive(cfg: Config, c: Counter, st: Plant, steps: seq<Step>, t: nat, i: nat)
    requires PlantOk(cfg, st) && IsCounter(cfg, c) && Possible(cfg, c, st, steps)
    requires IsReg(cfg, t, i) && BoundsMakeSense(cfg, c, |st.mem|, t, i)
    requires CheckedRun(cfg, c, st, steps, t, i) && FitsEverywhere(cfg, st, t, i)
    ensures FitsEverywhere(cfg, After(cfg, c, st, steps), t, i)
    decreases |steps|
  {
    if steps != [] {
      RegOk(cfg, |st.mem|, t, i);
      CheckedStepFits(cfg, st, steps[0], t, i);
      StepKeepsFits(cfg, c, st, steps[0], t, i);
      BoundsSurvive(cfg, c, Next(cfg, c, st, steps[0]), steps[1..], t, i);
    }
  }

  /** What a blob gives register (t, i) at a start is inside its bounds, if it gives anything. */
  predicate BlobFits(cfg: Config, memSize: nat, flash: Flash, t: nat, i: nat)
    requires ConfigOk(cfg, memSize) && IsReg(cfg, t, i)
  {
    var d := Reg(cfg, t, i);
    RegOk(cfg, memSize, t, i);
    assert TableOk(cfg.tables[t]);
    d.saving && Restores(cfg, cfg.tables[t], flash) ==> Fits(d, Slot(flash.value, d))
  }

  /** A start does not clamp: its values are inside their bounds exactly when the blob's are. */
  lemma StartFitsExactly(cfg: Config, memSize: nat, flash: seq<Flash>, writers: nat, t: nat, i: nat)
    requires ConfigOk(cfg, memSize) && |flash| == |cfg.tables| && IsReg(cfg, t, i)
    requires Reg(cfg, t, i).Ok() && Fits(Reg(cfg, t, i), Reg(cfg, t, i).Default())
    ensures Reg(cfg, t, i).End() <= memSize
    ensures Fits(Reg(cfg, t, i), Current(RestartMem(cfg, memSize, flash), Reg(cfg, t, i)))
       <==> BlobFits(cfg, memSize, flash[t], t, i)
    ensures FitsEverywhere(cfg, Restarted(cfg, memSize, flash, writers), t, i)
       <==> BlobFits(cfg, memSize, flash[t], t, i)
  {
    StartFinds(cfg, memSize, flash, t, i);
  }
}
