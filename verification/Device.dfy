/**
  The registers of a device as the firmware keeps them (main/regs.c, main/mirror_storage.c,
  main/regs_description.c): memory, mirrors and pending buffer are updated in place. Every
  method is proved to do what the specification says.
 */
module Device {
  import opened Bits
  import opened Memory
  import opened Registers
  import opened Lookup
  import opened PendingBuffer
  import opened WritePath
  import opened WriteLaws

  // -------------------------------------------------------------------- abstraction

  /** The pending bytes with their written flags. */
  function CellsOf(flags: nat, bytes: seq<byte>): (c: Cells)
    requires |bytes| == 8
    ensures forall k :: 0 <= k < 8 ==> c[k] == if TestBit(flags, k) then Some(bytes[k]) else None
  {
    seq(8, k requires 0 <= k < 8 => if TestBit(flags, k) then Some(bytes[k]) else None)
  }

  lemma CellsOfNone(bytes: seq<byte>)
    requires |bytes| == 8
    ensures CellsOf(0, bytes) == BLANK
  {
    forall k | 0 <= k < 8 ensures CellsOf(0, bytes)[k] == BLANK[k] {
      ZeroDigit(k);
    }
  }

  // ------------------------------------------------------ an access, register by register

  lemma AccessNowhere(cfg: Config, s: Store, p: Pending, a: nat, data: seq<byte>)
    requires FindAddress(cfg.tables, a) == Nowhere
    ensures Access(EngineOf(cfg), s, p, a, data) == Outcome(s, p, -ILLEGAL_DATA_ADDRESS)
  {
    LocateNowhere(cfg, a);
  }

  lemma AccessBarred(cfg: Config, s: Store, p: Pending, t: nat, i: nat, a: nat, data: seq<byte>)
    requires StoreOk(cfg, s) && IsReg(cfg, t, i) && Reg(cfg, t, i).Holds(a) && !Writable(s, Reg(cfg, t, i))
    ensures Access(EngineOf(cfg), s, p, a, data) == Outcome(s, p, -ILLEGAL_DATA_ADDRESS)
  {
    LocateAt(cfg, |s.mem|, t, i, a);
    assert !AllowedAt(cfg, s, ElementStart(Reg(cfg, t, i), a));
  }

  /** The element of register (t, i) around `a`. */
  function SpotOf(d: Register, a: nat): (spot: Spot)
    requires d.address <= a
  {
    Spot(ElementStart(d, a), d.Item())
  }

  lemma AccessAllowed(cfg: Config, s: Store, p: Pending, t: nat, i: nat, a: nat, data: seq<byte>)
    requires StoreOk(cfg, s) && IsReg(cfg, t, i) && Reg(cfg, t, i).Holds(a) && Writable(s, Reg(cfg, t, i))
    ensures Around(SpotOf(Reg(cfg, t, i), a), a)
    ensures Access(EngineOf(cfg), s, p, a, data)
         == Deposit(EngineOf(cfg), s, SpotOf(Reg(cfg, t, i), a), Fill(SpotOf(Reg(cfg, t, i), a), p, a, data))
  {
    var d := Reg(cfg, t, i);
    LocateAt(cfg, |s.mem|, t, i, a);
    assert AllowedAt(cfg, s, ElementStart(d, a));
  }

  /** What a device does with the bytes of a filled buffer. */
  lemma DepositAt(cfg: Config, s: Store, t: nat, i: nat, a: nat, p: Pending)
    requires StoreOk(cfg, s) && IsReg(cfg, t, i) && Reg(cfg, t, i).Holds(a)
    ensures var d, spot := Reg(cfg, t, i), SpotOf(Reg(cfg, t, i), a);
            && d.Holds(spot.start) && ElementStart(d, spot.start) == spot.start
            && Deposit(EngineOf(cfg), s, spot, p) ==
               if Full(p.cells, spot.item) then
                 var done := Commit(cfg, s, t, i, spot.start, Collected(p.cells, spot.item));
                 Outcome(done.0, CLEARED, done.1)
               else Outcome(s, p, 1)
  {
    var spot := SpotOf(Reg(cfg, t, i), a);
    LocateAt(cfg, |s.mem|, t, i, a);
    if Full(p.cells, spot.item) {
      CommitAtElement(cfg, s, spot.start, Collected(p.cells, spot.item));
    }
  }

  /** `regs_set_buffer` from byte `i` on, once its access has been made. */
  lemma SetBytesNext<S>(eng: Engine<S>, s: S, p: Pending, a: nat, data: seq<byte>, i: nat, done: Outcome<S>)
    requires i < |data| && Access(eng, s, p, a + i, [data[i]]) == done
    ensures SetBytes(eng, s, p, a + i, data[i..]) ==
            if done.code < 0 || i + 1 == |data| then done
            else SetBytes(eng, done.state, done.pending, a + (i + 1), data[i + 1..])
  {
    assert data[i..][0] == data[i] && data[i..][1..] == data[i + 1..];
  }

  class RegisterBank {
    const cfg: Config
    ghost const eng: Engine<Store>
    const mem: array<byte>
    const tempBytes: array<byte>
    var byteWritedFlags: nat
    var regAddress: nat
    var mirrors: seq<seq<byte>>
    var tableToSave: nat
    var saveRequested: bool
    var credentialEnabled: bool

    ghost function Value(): Store
      reads this, mem
    {
      Store(mem[..], mirrors, SetBits(tableToSave), saveRequested, credentialEnabled)
    }

    ghost function PendingValue(): Pending
      reads this, tempBytes
      requires tempBytes.Length == 8
    {
      Pending(regAddress, CellsOf(byteWritedFlags, tempBytes[..]))
    }

    ghost predicate Valid()
      reads this, mem, tempBytes
    {
      && mem != tempBytes && tempBytes.Length == 8 && byteWritedFlags < 256
      && |cfg.tables| <= LIST_DESCRIPTIONS_SIZE && StoreOk(cfg, Value())
      && IsEngineOf(eng, cfg)
    }

    /** Nothing is pending and nothing requested at the start. */
    constructor (config: Config, memory: array<byte>, buffers: seq<seq<byte>>)
      requires ConfigOk(config, memory.Length) && |config.tables| <= LIST_DESCRIPTIONS_SIZE
      requires |buffers| == |config.tables|
      requires forall t :: 0 <= t < |buffers| ==> |buffers[t]| == config.tables[t].bufferSize
      ensures Valid() && cfg == config && mem == memory && fresh(tempBytes)
      ensures Value() == Store(memory[..], buffers, {}, false, false) && PendingValue() == CLEARED
    {
      cfg, mem, mirrors := config, memory, buffers;
      eng := EngineOf(config);
      tempBytes := new byte[8](_ => 0);
      byteWritedFlags, regAddress := 0, 0;
      tableToSave, saveRequested, credentialEnabled := 0, false, false;
      new;
      SetBitsNone();
      CellsOfNone(tempBytes[..]);
    }

    // ------------------------------------------------------------------- the pending buffer

    /** `regs_clear_temp_buffer` */
    method ClearTempBuffer()
      requires tempBytes.Length == 8
      modifies this`regAddress, this`byteWritedFlags, tempBytes
      ensures byteWritedFlags == 0 && PendingValue() == CLEARED
    {
      for i := 0 to 8 {
        tempBytes[i] := 0;
      }
      regAddress, byteWritedFlags := 0, 0;
      CellsOfNone(tempBytes[..]);
    }

    /** Aiming the buffer at an element: it is started afresh unless it holds that element. */
    method AimTempBuffer(start: nat)
      requires tempBytes.Length == 8 && byteWritedFlags < 256
      modifies this`regAddress, this`byteWritedFlags, tempBytes
      ensures byteWritedFlags < 256 && PendingValue() == Aimed(old(PendingValue()), start)
    {
      if regAddress != start {
        for i := 0 to 8 {
          tempBytes[i] := 0;
        }
        regAddress, byteWritedFlags := start, 0;
        CellsOfNone(tempBytes[..]);
      }
    }

    /** Bytes and flags are written together. */
    method PokeTempBuffer(off: nat, data: seq<byte>)
      requires tempBytes.Length == 8 && byteWritedFlags < 256 && off + |data| <= 8
      modifies this`byteWritedFlags, tempBytes
      ensures byteWritedFlags < 256
      ensures PendingValue() == Pending(regAddress, Poke(old(PendingValue()).cells, off, data))
    {
      ghost var before := PendingValue().cells;
      for i := 0 to |data|
        invariant byteWritedFlags < 256
        invariant Poke(PendingValue().cells, off + i, data[i..]) == Poke(before, off, data)
      {
        ghost var cells, flags := PendingValue().cells, byteWritedFlags;
        tempBytes[off + i] := data[i];
        byteWritedFlags := Or(byteWritedFlags, Pow2(off + i));
        FlagSet(flags, off + i);
        assert PendingValue().cells == cells[off + i := Some(data[i])];
        assert data[i..][1..] == data[i + 1..];
      }
    }

    static lemma FlagSet(flags: nat, n: nat)
      requires flags < 256 && n < 8
      ensures Or(flags, Pow2(n)) < 256
      ensures forall k :: 0 <= k < 8 ==> (TestBit(Or(flags, Pow2(n)), k) <==> TestBit(flags, k) || k == n)
    {
      Pow2Of16();
      Pow2Monotone(n, 7);
      OrFits(flags, Pow2(n), 8);
      forall k | 0 <= k < 8 ensures TestBit(Or(flags, Pow2(n)), k) <==> TestBit(flags, k) || k == n {
        OrDigit(flags, Pow2(n), k);
        PowerDigit(n, k);
      }
    }

    /** `regs_fill_temp_buffer` */
    method FillTempBuffer(d: Register, a: nat, data: seq<byte>)
      requires tempBytes.Length == 8 && byteWritedFlags < 256
      requires d.address <= a && Around(SpotOf(d, a), a)
      modifies this`regAddress, this`byteWritedFlags, tempBytes
      ensures byteWritedFlags < 256 && PendingValue() == Fill(SpotOf(d, a), old(PendingValue()), a, data)
    {
      var startByte := Remainder(a - d.address, d.kind);
      AimTempBuffer(a - startByte);
      var writeSize := if |data| > SizeInByte(d.kind) - startByte then SizeInByte(d.kind) - startByte else |data|;
      PokeTempBuffer(startByte, data[..writeSize]);
    }

    /** `regs_check_temp_buffer` */
    method CheckTempBuffer(item: nat) returns (complete: bool)
      requires tempBytes.Length == 8 && item <= 8
      ensures complete == Full(PendingValue().cells, item)
    {
      for i := 0 to item
        invariant forall k :: 0 <= k < i ==> PendingValue().cells[k].Some?
      {
        if !TestBit(byteWritedFlags, i) {
          return false;
        }
      }
      return true;
    }

    /** The bytes of a complete element, as the C code finds them side by side. */
    lemma CollectedBytes(n: nat)
      requires tempBytes.Length == 8 && Full(PendingValue().cells, n)
      ensures Collected(PendingValue().cells, n) == tempBytes[..n]
    {
      if n > 0 {
        CollectedBytes(n - 1);
        assert tempBytes[..n] == tempBytes[..n - 1] + [tempBytes[n - 1]];
      }
    }

    // ------------------------------------------------------------------------ value check

    /** `is_ascii_symbol_or_digital` */
    static method IsAsciiSymbolOrDigital(s: seq<byte>) returns (ok: bool)
      ensures ok == AllText(s)
    {
      if |s| == 0 {
        return false;
      }
      for i := 0 to |s|
        invariant forall k :: 0 <= k < i ==> IsText(s[k])
      {
        if !IsText(s[i]) {
          return false;
        }
      }
      return true;
    }

    /** The value in the buffer, no larger than the maximum and then no smaller than the minimum. */
    method ClampTempBuffer(d: Register, index: nat) returns (checked: seq<byte>)
      requires tempBytes.Length == 8 && d.Ok() && index < d.size
      ensures checked == ClampBytes(d, index, tempBytes[..d.Item()])
    {
      ScaleMonotone(index, d.size, d.kind);
      var value := Decode(d.kind, tempBytes[..SizeInByte(d.kind)]);
      if d.maxValue.Some? {
        var top := Decode(d.kind, Element(d.maxValue.value, d.kind, index));
        if value > top {
          value := top;
        }
      }
      if d.minValue.Some? {
        var bottom := Decode(d.kind, Element(d.minValue.value, d.kind, index));
        if value < bottom {
          value := bottom;
        }
      }
      checked := Encode(d.kind, value);
    }

    /** `regs_write_value_check`: bounds first, then the text registers. */
    method WriteValueCheck(d: Register, e: nat) returns (ok: bool, checked: seq<byte>)
      requires tempBytes.Length == 8 && d.Ok() && d.Holds(e)
      ensures ElementIndex(d, e) < d.size
      ensures checked == ClampBytes(d, ElementIndex(d, e), tempBytes[..d.Item()]) && ok == Accepted(cfg, d, checked)
    {
      ElementInside(d, e);
      checked := ClampTempBuffer(d, Quotient(e - d.address, d.kind));
      ok := true;
      if d.address in cfg.textAddresses {
        ok := IsAsciiSymbolOrDigital(checked);
      }
    }

    // ------------------------------------------------------------------- mirrors and saves

    /** `mirror_request_flash_save` */
    method RequestFlashSave(t: nat)
      requires t < LIST_DESCRIPTIONS_SIZE
      modifies this`tableToSave, this`saveRequested
      ensures Value() == old(Value()).(tableToSave := old(Value()).tableToSave + {t}, saveRequested := true)
    {
      SetBitsOr(tableToSave, t);
      tableToSave := Or(tableToSave, Pow2(t));
      saveRequested := true;
    }

    /** `mirror_access_write`; the result is 1 after a change, -1 when the slot does not fit. */
    method MirrorAccessWrite(t: nat, i: nat) returns (res: int)
      requires Valid() && IsReg(cfg, t, i)
      modifies this`mirrors, this`tableToSave, this`saveRequested
      ensures |old(mirrors)[t]| >= 4 && Reg(cfg, t, i).End() <= mem.Length
      ensures Value() == MirrorWrite(cfg, old(Value()), t, Reg(cfg, t, i)) && Valid()
      ensures Reg(cfg, t, i).saving ==> Reg(cfg, t, i).savedAddress + Reg(cfg, t, i).Bytes() <= |old(mirrors)[t]|
      ensures var d := Reg(cfg, t, i);
              res == if d.saving && Slot(old(mirrors)[t], d) != Current(mem[..], d) then 1 else 0
    {
      var d := cfg.tables[t].regs[i];
      RegOk(cfg, mem.Length, t, i);
      MirrorWriteFrame(cfg, Value(), t, i);
      res := 0;
      if d.saving {
        var data := mirrors[t];
        if d.savedAddress + d.Bytes() <= |data| {
          var value := mem[d.address..d.address + d.Bytes()];
          if data[d.savedAddress..d.savedAddress + d.Bytes()] != value {
            mirrors := mirrors[t := Refreshed(cfg, data, d, value)];
            RequestFlashSave(t);
            res := 1;
          }
        } else {
          res := -1;
        }
      }
    }

    // ------------------------------------------------------------------------------ writing

    /** `execute_main_command`, as far as it decides who may write. */
    method ExecuteMainCommand(command: nat)
      modifies this`credentialEnabled
      ensures Value() == RunCommand(old(Value()), command)
    {
      if command == ENABLE_SPECIAL_HTTP_COMM {
        credentialEnabled := true;
      } else if command == DISABLE_SPECIAL_HTTP_COMM {
        credentialEnabled := false;
      }
    }

    /** A write to the command register runs the command. */
    method HandleCommand(d: Register)
      requires Valid()
      modifies this`credentialEnabled
      ensures Valid() && cfg.commandAddress + 2 <= mem.Length
      ensures Value() == if IsCommand(cfg, d)
                         then RunCommand(old(Value()), Memory.Value(Slice(mem[..], cfg.commandAddress, 2)))
                         else old(Value())
    {
      var command := GetByAddress(cfg.tables, cfg.commandAddress);
      if command.At? && d.End() == cfg.tables[command.table].regs[command.index].End() {
        ExecuteMainCommand(Memory.Value(mem[cfg.commandAddress..cfg.commandAddress + 2]));
      }
    }

    /** `regs_hadle_sets` */
    method RegsHandleSets(t: nat, i: nat)
      requires Valid() && IsReg(cfg, t, i)
      modifies this`mirrors, this`tableToSave, this`saveRequested, this`credentialEnabled
      ensures Valid() && |old(mirrors)[t]| >= 4
      ensures Reg(cfg, t, i).End() <= mem.Length && cfg.commandAddress + 2 <= mem.Length
      ensures Value() == HandleSets(cfg, old(Value()), t, Reg(cfg, t, i))
    {
      var d := cfg.tables[t].regs[i];
      MirrorWriteFrame(cfg, Value(), t, i);
      if d.saving {
        var _ := MirrorAccessWrite(t, i);
      }
      HandleCommand(d);
    }

    /** A complete element is checked, stored, cleared from the buffer and acted on. */
    method CommitTempBuffer(t: nat, i: nat, e: nat) returns (result: int)
      requires Valid() && IsReg(cfg, t, i) && Reg(cfg, t, i).Holds(e) && ElementStart(Reg(cfg, t, i), e) == e
      requires regAddress == e && Full(PendingValue().cells, Reg(cfg, t, i).Item())
      modifies this, mem, tempBytes
      ensures Valid() && PendingValue() == CLEARED
      ensures (Value(), result) ==
              Commit(cfg, old(Value()), t, i, e, Collected(old(PendingValue()).cells, Reg(cfg, t, i).Item()))
    {
      var d := cfg.tables[t].regs[i];
      RegOk(cfg, mem.Length, t, i);
      CollectedBytes(d.Item());
      CommitMemory(cfg, Value(), t, i, e, tempBytes[..d.Item()]);
      var ok, checked := WriteValueCheck(d, e);
      if ok {
        result := 1;
        CopyIn(mem, e, checked);
      } else {
        result := -ILLEGAL_DATA_VALUE;
      }
      ClearTempBuffer();
      RegsHandleSets(t, i);
    }

    /** `regs_set` */
    method RegsSet(a: nat, data: seq<byte>) returns (result: int)
      requires Valid()
      modifies this, mem, tempBytes
      ensures Valid()
      ensures Outcome(Value(), PendingValue(), result) == Access(eng, old(Value()), old(PendingValue()), a, data)
    {
      EngineIs(eng, cfg);
      var p := GetByAddress(cfg.tables, a);
      if p == Nowhere {
        AccessNowhere(cfg, Value(), PendingValue(), a, data);
        return -ILLEGAL_DATA_ADDRESS;
      }
      var d := cfg.tables[p.table].regs[p.index];
      if d.readOnly && !(d.credential && credentialEnabled) {
        AccessBarred(cfg, Value(), PendingValue(), p.table, p.index, a, data);
        return -ILLEGAL_DATA_ADDRESS;
      }
      AccessAllowed(cfg, Value(), PendingValue(), p.table, p.index, a, data);
      FillTempBuffer(d, a, data);
      DepositAt(cfg, Value(), p.table, p.index, a, PendingValue());
      var complete := CheckTempBuffer(d.Item());
      if complete {
        result := CommitTempBuffer(p.table, p.index, regAddress);
      } else {
        result := 1;
      }
    }

    /** One round of that loop; `goal` is the outcome of all rounds. */
    method RegsSetNext(a: nat, data: seq<byte>, i: nat, ghost goal: Outcome<Store>) returns (result: int)
      requires Valid() && i < |data| && goal == SetBytes(eng, Value(), PendingValue(), a + i, data[i..])
      modifies this, mem, tempBytes
      ensures Valid()
      ensures goal == if result < 0 || i + 1 == |data| then Outcome(Value(), PendingValue(), result)
                      else SetBytes(eng, Value(), PendingValue(), a + (i + 1), data[i + 1..])
    {
      ghost var s, p := Value(), PendingValue();
      result := RegsSet(a + i, [data[i]]);
      SetBytesNext(eng, s, p, a, data, i, Outcome(Value(), PendingValue(), result));
    }

    /** `regs_set_buffer` */
    method RegsSetBuffer(a: nat, data: seq<byte>) returns (result: int)
      requires Valid()
      modifies this, mem, tempBytes
      ensures Valid()
      ensures Outcome(Value(), PendingValue(), result) == SetBytes(eng, old(Value()), old(PendingValue()), a, data)
    {
      result := 0;
      ghost var goal := SetBytes(eng, Value(), PendingValue(), a, data);
      var i := 0;
      assert a + i == a && data[i..] == data;
      while i < |data|
        invariant 0 <= i <= |data| && Valid()
        invariant i < |data| ==> goal == SetBytes(eng, Value(), PendingValue(), a + i, data[i..])
        invariant i == |data| ==> goal == Outcome(Value(), PendingValue(), result)
      {
        result := RegsSetNext(a, data, i, goal);
        if result < 0 {
          break;
        }
        i := i + 1;
      }
    }
  }
}
