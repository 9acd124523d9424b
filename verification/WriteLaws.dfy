/**
  What holds of writes and of whole runs of writes (main/regs.c, main/mirror_storage.c):
  complete elements take their clamped values and nothing else changes, saved registers agree
  with their mirrors, bounded registers stay inside their bounds, and protected bytes are
  never touched.
 */
module WriteLaws {
  import opened Bits
  import opened Memory
  import opened Registers
  import opened Lookup
  import opened PendingBuffer
  import opened WritePath

  // ------------------------------------------------------------------------ clamping

  predicate Within(v: int, bottom: Option<int>, top: Option<int>) {
    (bottom.Some? ==> bottom.value <= v) && (top.Some? ==> v <= top.value)
  }

  /** Element `index`, with value `v`, is inside its bounds. */
  predicate InBounds(d: Register, index: nat, v: int)
    requires d.Ok() && index < d.size
  {
    Within(v, Bound(d, d.minValue, index), Bound(d, d.maxValue, index))
  }

  /** The minimum of no element exceeds its maximum. */
  predicate BoundsOrdered(d: Register)
    requires d.Ok()
  {
    forall index :: 0 <= index < d.size ==>
      var bottom, top := Bound(d, d.minValue, index), Bound(d, d.maxValue, index);
      bottom.Some? && top.Some? ==> bottom.value <= top.value
  }

  /** Clamping gives the nearest value in bounds. */
  lemma ClampIsNearest(v: int, bottom: Option<int>, top: Option<int>, w: int)
    requires bottom.Some? && top.Some? ==> bottom.value <= top.value
    requires Within(w, bottom, top)
    ensures Within(Clamp(v, bottom, top), bottom, top)
    ensures (if v < w then w - v else v - w) >=
            (if v < Clamp(v, bottom, top) then Clamp(v, bottom, top) - v else v - Clamp(v, bottom, top))
  {
  }

  /** A written element is in bounds, and a value in bounds is written as it is. */
  lemma ClampBytesInBounds(d: Register, index: nat, s: seq<byte>)
    requires d.Ok() && BoundsOrdered(d) && index < d.size && |s| == d.Item()
    ensures InBounds(d, index, Decode(d.kind, ClampBytes(d, index, s)))
    ensures InBounds(d, index, Decode(d.kind, s)) ==> ClampBytes(d, index, s) == s
  {
    var bottom, top := Bound(d, d.minValue, index), Bound(d, d.maxValue, index);
    DecodeEncode(d.kind, Clamp(Decode(d.kind, s), bottom, top));
    EncodeDecode(d.kind, s);
  }

  // ------------------------------------------------------------------- single commits

  /** Mirroring keeps the sizes of the buffers. */
  lemma MirrorWriteFrame(cfg: Config, s: Store, t: nat, i: nat)
    requires StoreOk(cfg, s) && IsReg(cfg, t, i)
    ensures |s.mirrors[t]| >= 4 && Reg(cfg, t, i).End() <= |s.mem|
    ensures var r := MirrorWrite(cfg, s, t, Reg(cfg, t, i));
            StoreOk(cfg, r) && r.mem == s.mem && r.credentialEnabled == s.credentialEnabled
  {
    RegOk(cfg, |s.mem|, t, i);
    var r := MirrorWrite(cfg, s, t, Reg(cfg, t, i));
    forall u | 0 <= u < |cfg.tables| ensures |r.mirrors[u]| == cfg.tables[u].bufferSize {
      assert |s.mirrors[u]| == cfg.tables[u].bufferSize;
    }
  }

  /** The follow-up actions leave the memory alone. */
  lemma HandleSetsFrame(cfg: Config, s: Store, t: nat, i: nat)
    requires StoreOk(cfg, s) && IsReg(cfg, t, i)
    ensures |s.mirrors[t]| >= 4 && Reg(cfg, t, i).End() <= |s.mem|
    ensures var r := HandleSets(cfg, s, t, Reg(cfg, t, i));
            && StoreOk(cfg, r) && r.mem == s.mem
            && r.mirrors == MirrorWrite(cfg, s, t, Reg(cfg, t, i)).mirrors
  {
    MirrorWriteFrame(cfg, s, t, i);
    var mirrored := MirrorWrite(cfg, s, t, Reg(cfg, t, i));
    var r := HandleSets(cfg, s, t, Reg(cfg, t, i));
    assert r == mirrored.(credentialEnabled := r.credentialEnabled);
  }

  /** Memory after a commit. */
  lemma CommitMemory(cfg: Config, s: Store, t: nat, i: nat, e: nat, bytes: seq<byte>)
    requires StoreOk(cfg, s) && IsReg(cfg, t, i)
    requires Reg(cfg, t, i).Holds(e) && ElementStart(Reg(cfg, t, i), e) == e && |bytes| == Reg(cfg, t, i).Item()
    ensures var d := Reg(cfg, t, i);
            && d.Ok() && ElementIndex(d, e) < d.size && e + d.Item() <= d.End() <= |s.mem|
            && |s.mirrors[t]| >= 4
            && var checked := ClampBytes(d, ElementIndex(d, e), bytes);
               var stored := if Accepted(cfg, d, checked) then s.(mem := Splice(s.mem, e, checked)) else s;
               && StoreOk(cfg, stored)
               && Commit(cfg, s, t, i, e, bytes) ==
                  (HandleSets(cfg, stored, t, d), if Accepted(cfg, d, checked) then 1 else -ILLEGAL_DATA_VALUE)
  {
    RegOk(cfg, |s.mem|, t, i);
    ElementInside(Reg(cfg, t, i), e);
  }

  /** `CommitAt` where the engine asks for it: at an element of a register, complete. */
  lemma CommitAtElement(cfg: Config, s: Store, e: nat, bytes: seq<byte>)
    requires CommitReady(cfg, s, e, bytes)
    ensures var p := FindAddress(cfg.tables, e);
            && IsReg(cfg, p.table, p.index) && Reg(cfg, p.table, p.index).Holds(e)
            && CommitAt(cfg, s, e, bytes) == Commit(cfg, s, p.table, p.index, e, bytes)
  {
  }

  // ---------------------------------------------------------------- mirror agreement

  /** Slot and memory of a saved register hold the same bytes. */
  predicate AgreesAt(cfg: Config, s: Store, t: nat, i: nat)
    requires StoreOk(cfg, s) && IsReg(cfg, t, i)
  {
    var d := Reg(cfg, t, i);
    RegOk(cfg, |s.mem|, t, i);
    d.saving ==> Slot(s.mirrors[t], d) == Current(s.mem, d)
  }

  predicate Sealings(cfg: Config, s: Store)
    requires StoreOk(cfg, s)
  {
    forall t :: 0 <= t < |cfg.tables| ==> |s.mirrors[t]| >= 4 && CrcValid(cfg, s.mirrors[t])
  }

  predicate MirrorsAgree(cfg: Config, s: Store)
    requires StoreOk(cfg, s)
  {
    && Sealings(cfg, s)
    && forall t, i | 0 <= t < |cfg.tables| && 0 <= i < |cfg.tables[t].regs| :: AgreesAt(cfg, s, t, i)
  }

  /** Refreshing one slot seals the mirror and leaves the other slots alone. */
  lemma RefreshedSlots(cfg: Config, memSize: nat, t: nat, i: nat, j: nat, m: seq<byte>, value: seq<byte>)
    requires ConfigOk(cfg, memSize) && IsReg(cfg, t, i) && IsReg(cfg, t, j)
    requires |m| == cfg.tables[t].bufferSize
    requires Reg(cfg, t, i).saving && Reg(cfg, t, j).saving && |value| == Reg(cfg, t, i).Bytes()
    ensures var d, e := Reg(cfg, t, i), Reg(cfg, t, j);
            && |m| >= 4 && d.savedAddress + d.Bytes() <= |m| - 4 && e.savedAddress + e.Bytes() <= |m| - 4
            && CrcValid(cfg, Refreshed(cfg, m, d, value))
            && Slot(Refreshed(cfg, m, d, value), e) == if i == j then value else Slot(m, e)
  {
    var d, e := Reg(cfg, t, i), Reg(cfg, t, j);
    RegOk(cfg, memSize, t, i);
    RegOk(cfg, memSize, t, j);
    var spliced := Splice(m, d.savedAddress, value);
    SealedIsValid(cfg, spliced);
    var sealed := Sealed(cfg, spliced);
    SliceOfPrefix(sealed, |m| - 4, e.savedAddress, e.Bytes());
    SliceOfPrefix(spliced, |m| - 4, e.savedAddress, e.Bytes());
    if i == j {
      SliceOfSplice(m, d.savedAddress, value);
    } else {
      assert TableOk(cfg.tables[t]);
      SliceOutsideSplice(m, d.savedAddress, value, e.savedAddress, e.Bytes());
    }
  }

  /** Copying a register to the mirror makes it agree, and disturbs no other. */
  lemma MirrorWriteAgreesAt(cfg: Config, s: Store, t: nat, i: nat, u: nat, j: nat)
    requires StoreOk(cfg, s) && IsReg(cfg, t, i) && IsReg(cfg, u, j)
    requires (u == t && j == i) || AgreesAt(cfg, s, u, j)
    ensures |s.mirrors[t]| >= 4 && Reg(cfg, t, i).End() <= |s.mem|
    ensures var r := MirrorWrite(cfg, s, t, Reg(cfg, t, i));
            StoreOk(cfg, r) && AgreesAt(cfg, r, u, j)
  {
    var d := Reg(cfg, t, i);
    MirrorWriteFrame(cfg, s, t, i);
    RegOk(cfg, |s.mem|, t, i);
    RegOk(cfg, |s.mem|, u, j);
    var r := MirrorWrite(cfg, s, t, d);
    if d.saving && u == t && Reg(cfg, u, j).saving {
      RefreshedSlots(cfg, |s.mem|, t, i, j, s.mirrors[t], Current(s.mem, d));
    }
  }

  lemma MirrorWriteSeals(cfg: Config, s: Store, t: nat, i: nat)
    requires StoreOk(cfg, s) && Sealings(cfg, s) && IsReg(cfg, t, i)
    ensures |s.mirrors[t]| >= 4 && Reg(cfg, t, i).End() <= |s.mem|
    ensures var r := MirrorWrite(cfg, s, t, Reg(cfg, t, i));
            StoreOk(cfg, r) && Sealings(cfg, r)
  {
    MirrorWriteFrame(cfg, s, t, i);
    RegOk(cfg, |s.mem|, t, i);
    var d := Reg(cfg, t, i);
    var r := MirrorWrite(cfg, s, t, d);
    if r.mirrors != s.mirrors {
      RefreshedSlots(cfg, |s.mem|, t, i, i, s.mirrors[t], Current(s.mem, d));
    }
    forall u | 0 <= u < |cfg.tables| ensures |r.mirrors[u]| >= 4 && CrcValid(cfg, r.mirrors[u]) {
      assert |s.mirrors[u]| >= 4 && CrcValid(cfg, s.mirrors[u]);
    }
  }

  /** A change inside one register changes no other register. */
  lemma OtherRegistersKeep(cfg: Config, mem: seq<byte>, t: nat, i: nat, e: nat, bytes: seq<byte>, u: nat, j: nat)
    requires ConfigOk(cfg, |mem|) && IsReg(cfg, t, i) && IsReg(cfg, u, j) && (t, i) != (u, j)
    requires Reg(cfg, t, i).address <= e && e + |bytes| <= Reg(cfg, t, i).End()
    ensures e + |bytes| <= |mem| && Reg(cfg, u, j).End() <= |mem|
    ensures Current(Splice(mem, e, bytes), Reg(cfg, u, j)) == Current(mem, Reg(cfg, u, j))
  {
    var d, f := Reg(cfg, t, i), Reg(cfg, u, j);
    RegOk(cfg, |mem|, t, i);
    RegOk(cfg, |mem|, u, j);
    assert Disjoint(d.address, d.Bytes(), f.address, f.Bytes()) by {
      assert TableOk(cfg.tables[t]);
    }
    SliceOutsideSplice(mem, e, bytes, f.address, f.Bytes());
  }

  /** A commit keeps slots and memory in agreement. */
  lemma CommitAgrees(cfg: Config, s: Store, t: nat, i: nat, e: nat, bytes: seq<byte>)
    requires StoreOk(cfg, s) && MirrorsAgree(cfg, s) && IsReg(cfg, t, i)
    requires Reg(cfg, t, i).Holds(e) && ElementStart(Reg(cfg, t, i), e) == e && |bytes| == Reg(cfg, t, i).Item()
    ensures StoreOk(cfg, Commit(cfg, s, t, i, e, bytes).0) && MirrorsAgree(cfg, Commit(cfg, s, t, i, e, bytes).0)
  {
    var d := Reg(cfg, t, i);
    CommitMemory(cfg, s, t, i, e, bytes);
    ElementInside(d, e);
    var checked := ClampBytes(d, ElementIndex(d, e), bytes);
    var stored := if Accepted(cfg, d, checked) then s.(mem := Splice(s.mem, e, checked)) else s;
    forall u, j | 0 <= u < |cfg.tables| && 0 <= j < |cfg.tables[u].regs| && (u, j) != (t, i)
      ensures AgreesAt(cfg, stored, u, j)
    {
      assert AgreesAt(cfg, s, u, j);
      OtherRegistersKeep(cfg, s.mem, t, i, e, checked, u, j);
    }
    HandleSetsAgrees(cfg, stored, t, i);
  }

  lemma HandleSetsAgrees(cfg: Config, s: Store, t: nat, i: nat)
    requires StoreOk(cfg, s) && Sealings(cfg, s) && IsReg(cfg, t, i)
    requires forall u, j | 0 <= u < |cfg.tables| && 0 <= j < |cfg.tables[u].regs| ::
               (u, j) != (t, i) ==> AgreesAt(cfg, s, u, j)
    ensures |s.mirrors[t]| >= 4 && Reg(cfg, t, i).End() <= |s.mem|
    ensures var r := HandleSets(cfg, s, t, Reg(cfg, t, i));
            StoreOk(cfg, r) && MirrorsAgree(cfg, r)
  {
    HandleSetsFrame(cfg, s, t, i);
    MirrorWriteSeals(cfg, s, t, i);
    var mirrored := MirrorWrite(cfg, s, t, Reg(cfg, t, i));
    var r := HandleSets(cfg, s, t, Reg(cfg, t, i));
    forall u, j | 0 <= u < |cfg.tables| && 0 <= j < |cfg.tables[u].regs| ensures AgreesAt(cfg, r, u, j) {
      MirrorWriteAgreesAt(cfg, s, t, i, u, j);
      assert AgreesAt(cfg, mirrored, u, j);
    }
  }

  /** The credential permission changes only by a commit to the command register, to what its command says. */
  lemma CredentialNeedsCommand(cfg: Config, s: Store, t: nat, i: nat, e: nat, bytes: seq<byte>)
    requires StoreOk(cfg, s) && IsReg(cfg, t, i)
    requires Reg(cfg, t, i).Holds(e) && ElementStart(Reg(cfg, t, i), e) == e && |bytes| == Reg(cfg, t, i).Item()
    ensures var after := Commit(cfg, s, t, i, e, bytes).0;
            && |after.mem| == |s.mem| && cfg.commandAddress + 2 <= |after.mem|
            && (after.credentialEnabled != s.credentialEnabled ==>
                  && IsCommand(cfg, Reg(cfg, t, i))
                  && Value(Slice(after.mem, cfg.commandAddress, 2)) ==
                       if after.credentialEnabled then 0x53ff else 0x5400)
  {
    CommitMemory(cfg, s, t, i, e, bytes);
    var d := Reg(cfg, t, i);
    var checked := ClampBytes(d, ElementIndex(d, e), bytes);
    var stored := if Accepted(cfg, d, checked) then s.(mem := Splice(s.mem, e, checked)) else s;
    HandleSetsFrame(cfg, stored, t, i);
    MirrorWriteFrame(cfg, stored, t, i);
  }

  // ------------------------------------------------------------------ bounded registers

  /** The bytes of element `index` of a register in memory. */
  function ElementAt(mem: seq<byte>, d: Register, index: nat): (s: seq<byte>)
    requires d.End() <= |mem| && index < d.size
    ensures |s| == d.Item()
  {
    ScaleMonotone(index, d.size, d.kind);
    Element(Current(mem, d), d.kind, index)
  }

  /** Element `index` of a register is inside its bounds in memory. */
  predicate InBoundsAt(cfg: Config, mem: seq<byte>, t: nat, i: nat, index: nat)
    requires ConfigOk(cfg, |mem|) && IsReg(cfg, t, i) && index < Reg(cfg, t, i).size
  {
    var d := Reg(cfg, t, i);
    RegOk(cfg, |mem|, t, i);
    InBounds(d, index, Decode(d.kind, ElementAt(mem, d, index)))
  }

  predicate AllOrdered(cfg: Config, memSize: nat)
    requires ConfigOk(cfg, memSize)
  {
    forall t, i | 0 <= t < |cfg.tables| && 0 <= i < |cfg.tables[t].regs| ::
      Reg(cfg, t, i).Ok() && BoundsOrdered(Reg(cfg, t, i))
  }

  predicate AllInBounds(cfg: Config, mem: seq<byte>)
    requires ConfigOk(cfg, |mem|)
  {
    forall t, i, index | 0 <= t < |cfg.tables| && 0 <= i < |cfg.tables[t].regs| && 0 <= index < Reg(cfg, t, i).size ::
      InBoundsAt(cfg, mem, t, i, index)
  }

  /** Storing one element of an array changes that element only. */
  lemma ElementOfSplice(d: Register, mem: seq<byte>, q: nat, e: nat, bytes: seq<byte>, index: nat)
    requires d.End() <= |mem| && q < d.size && index < d.size && |bytes| == d.Item()
    requires e == d.address + Scale(q, d.kind)
    ensures e + |bytes| <= |mem|
    ensures ElementAt(Splice(mem, e, bytes), d, index) == if index == q then bytes else ElementAt(mem, d, index)
  {
    ScaleMonotone(q, d.size, d.kind);
    ScaleMonotone(index, d.size, d.kind);
    SliceAroundSplice(mem, e, bytes, d.address, d.Bytes());
    if index == q {
      SliceOfSplice(Current(mem, d), Scale(q, d.kind), bytes);
    } else {
      ScaleMonotone(q, index, d.kind);
      ScaleMonotone(index, q, d.kind);
      SliceOutsideSplice(Current(mem, d), Scale(q, d.kind), bytes, Scale(index, d.kind), d.Item());
    }
  }

  /** The elements of a register after one of them was stored. */
  lemma ElementsOfSame(cfg: Config, mem: seq<byte>, t: nat, i: nat, e: nat, bytes: seq<byte>, index: nat)
    requires ConfigOk(cfg, |mem|) && IsReg(cfg, t, i) && index < Reg(cfg, t, i).size
    requires Reg(cfg, t, i).Holds(e) && ElementStart(Reg(cfg, t, i), e) == e && |bytes| == Reg(cfg, t, i).Item()
    ensures e + |bytes| <= |mem| && Reg(cfg, t, i).End() <= |mem|
    ensures ElementAt(Splice(mem, e, bytes), Reg(cfg, t, i), index)
         == if index == ElementIndex(Reg(cfg, t, i), e) then bytes else ElementAt(mem, Reg(cfg, t, i), index)
  {
    var d := Reg(cfg, t, i);
    ElementInside(d, e);
    RegOk(cfg, |mem|, t, i);
    ElementOfSplice(d, mem, ElementIndex(d, e), e, bytes, index);
  }

  /** The elements after one of them was stored. */
  lemma ElementsAfterStore(cfg: Config, mem: seq<byte>, t: nat, i: nat, e: nat, bytes: seq<byte>, u: nat, j: nat,
                           index: nat)
    requires ConfigOk(cfg, |mem|) && IsReg(cfg, t, i) && IsReg(cfg, u, j) && index < Reg(cfg, u, j).size
    requires Reg(cfg, t, i).Holds(e) && ElementStart(Reg(cfg, t, i), e) == e && |bytes| == Reg(cfg, t, i).Item()
    ensures e + |bytes| <= |mem| && Reg(cfg, u, j).End() <= |mem|
    ensures ElementAt(Splice(mem, e, bytes), Reg(cfg, u, j), index)
         == if u == t && j == i && index == ElementIndex(Reg(cfg, t, i), e) then bytes
            else ElementAt(mem, Reg(cfg, u, j), index)
  {
    if u == t && j == i {
      ElementsOfSame(cfg, mem, t, i, e, bytes, index);
    } else {
      ElementInside(Reg(cfg, t, i), e);
      OtherRegistersKeep(cfg, mem, t, i, e, bytes, u, j);
    }
  }

  /** A commit leaves every bounded element in bounds. */
  lemma CommitInBounds(cfg: Config, s: Store, t: nat, i: nat, e: nat, bytes: seq<byte>)
    requires StoreOk(cfg, s) && AllOrdered(cfg, |s.mem|) && AllInBounds(cfg, s.mem) && IsReg(cfg, t, i)
    requires Reg(cfg, t, i).Holds(e) && ElementStart(Reg(cfg, t, i), e) == e && |bytes| == Reg(cfg, t, i).Item()
    ensures StoreOk(cfg, Commit(cfg, s, t, i, e, bytes).0) && AllInBounds(cfg, Commit(cfg, s, t, i, e, bytes).0.mem)
  {
    var d := Reg(cfg, t, i);
    assert d.Ok() && BoundsOrdered(d);
    CommitMemory(cfg, s, t, i, e, bytes);
    var checked := ClampBytes(d, ElementIndex(d, e), bytes);
    var stored := if Accepted(cfg, d, checked) then s.(mem := Splice(s.mem, e, checked)) else s;
    HandleSetsFrame(cfg, stored, t, i);
    ClampBytesInBounds(d, ElementIndex(d, e), bytes);
    forall u, j, index | 0 <= u < |cfg.tables| && 0 <= j < |cfg.tables[u].regs| && 0 <= index < Reg(cfg, u, j).size
      ensures InBoundsAt(cfg, stored.mem, u, j, index)
    {
      assert InBoundsAt(cfg, s.mem, u, j, index);
      RegOk(cfg, |s.mem|, u, j);
      ElementsAfterStore(cfg, s.mem, t, i, e, checked, u, j, index);
    }
  }

  // ------------------------------------------------------------------- protected bytes

  /** A byte outside all registers, or of a read-only register that is no credential. */
  predicate Protected(cfg: Config, a: nat) {
    var p := FindAddress(cfg.tables, a);
    p.At? ==>
      var d := cfg.tables[p.table].regs[p.index];
      d.readOnly && !d.credential
  }

  predicate SameProtected(cfg: Config, before: seq<byte>, after: seq<byte>) {
    |before| == |after| && forall a :: 0 <= a < |before| && Protected(cfg, a) ==> after[a] == before[a]
  }

  lemma CommitKeepsProtected(cfg: Config, s: Store, e: nat, bytes: seq<byte>)
    requires CommitReady(cfg, s, e, bytes) && AllowedAt(cfg, s, e)
    ensures SameProtected(cfg, s.mem, CommitAt(cfg, s, e, bytes).0.mem)
  {
    var p := FindAddress(cfg.tables, e);
    var d := Reg(cfg, p.table, p.index);
    CommitAtElement(cfg, s, e, bytes);
    CommitMemory(cfg, s, p.table, p.index, e, bytes);
    ElementInside(d, e);
    var checked := ClampBytes(d, ElementIndex(d, e), bytes);
    var stored := if Accepted(cfg, d, checked) then s.(mem := Splice(s.mem, e, checked)) else s;
    HandleSetsFrame(cfg, stored, p.table, p.index);
    forall a | 0 <= a < |s.mem| && Protected(cfg, a) ensures stored.mem[a] == s.mem[a] {
      if d.Holds(a) {
        FindAddressUnique(cfg, |s.mem|, p.table, p.index, a);
      }
      SpliceAt(s.mem, e, checked, a);
    }
  }
}
