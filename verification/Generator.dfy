/**
  The generator's class `RegsHand` (generator/regs_handl.py): counters and lists that it
  updates while it reads the declarations of a structure, for user tasks and for the main
  registers. `Layout` says what comes out, and `ModbusAreas` what is accepted.
 */
module Generator {
  import opened Memory
  import opened Registers
  import opened Layout
  import opened Declarations
  import opened ModbusAreas

  datatype ModbusArea = ModbusArea(base: nat, mdbFunction: nat, last: int)

  class RegsHand {
    var byteNumber: nat
    var ind: nat
    var savedAddress: nat
    var sizeValue: nat
    var structureNumber: nat
    var userTaskEntries: map<nat, seq<Register>>
    var userTaskSavedSizes: map<nat, nat>
    var mainEntries: seq<Register>
    var clientEntries: seq<Register>
    var lastModbusAddress: int
    var lastModbusAddressClient: int
    var modbusAreas: map<string, ModbusArea>

    constructor ()
      ensures byteNumber == ind == sizeValue == structureNumber == 0 && savedAddress == 16
      ensures userTaskEntries == map[] && userTaskSavedSizes == map[] && mainEntries == clientEntries == []
      ensures lastModbusAddress == lastModbusAddressClient == -1 && modbusAreas == map[]
    {
      byteNumber, ind, sizeValue, structureNumber := 0, 0, 0, 0;
      savedAddress := 16;
      userTaskEntries, userTaskSavedSizes, mainEntries, clientEntries := map[], map[], [], [];
      lastModbusAddress, lastModbusAddressClient, modbusAreas := -1, -1, map[];
    }

    // ----------------------------------------------------------------- user task structures

    function UserEntries(): seq<Register>
      reads this
    {
      if structureNumber in userTaskEntries then userTaskEntries[structureNumber] else []
    }

    function SavedSize(): nat
      reads this
    {
      if structureNumber in userTaskSavedSizes then userTaskSavedSizes[structureNumber] else 0
    }

    /** The counters together with the entries of the current user task structure. */
    function UserState(): Counters
      reads this
    {
      Counters(byteNumber, ind, savedAddress, UserEntries())
    }

    /** A new user task structure: byte number, index and slot counter start over. */
    method StartUserTask()
      modifies this
      ensures structureNumber == old(structureNumber) + 1
      ensures byteNumber == ind == savedAddress == 0
      ensures userTaskEntries == old(userTaskEntries) && userTaskSavedSizes == old(userTaskSavedSizes)
    {
      structureNumber := structureNumber + 1;
      byteNumber, ind, savedAddress := 0, 0, 0;
    }

    /** `add_variable_to_user_task_description` */
    method AddUserTaskVariable(area: Area, f: Field, size: nat)
      modifies this
      ensures UserState() == old(UserState()).(ind := old(ind) + 1,
                                               regs := old(UserEntries()) + [Entry(area, old(UserState()), f, size)])
      ensures |UserEntries()| == old(|UserEntries()|) + 1
      ensures Declares(UserEntries()[old(|UserEntries()|)], Piece(f, size))
      ensures SavedSize() == old(SavedSize()) + if f.saving then Scale(size, f.kind) else 0
      ensures structureNumber == old(structureNumber)
    {
      EntryDeclares(area, Counters(byteNumber, ind, savedAddress, []), f, size);
      var entry := Entry(area, Counters(byteNumber, ind, savedAddress, []), f, size);
      EntryOfCounters(area, UserState(), Counters(byteNumber, ind, savedAddress, []), f, size);
      if structureNumber !in userTaskEntries {
        userTaskEntries := userTaskEntries[structureNumber := []];
        userTaskSavedSizes := userTaskSavedSizes[structureNumber := SavedSize()];
      }
      userTaskEntries := userTaskEntries[structureNumber := userTaskEntries[structureNumber] + [entry]];
      if f.saving {
        userTaskSavedSizes := userTaskSavedSizes[structureNumber := SavedSize() + Scale(size, f.kind)];
      }
      ind := ind + 1;
    }

    /** The counters move on behind a variable. */
    method Advance(f: Field, size: nat)
      modifies this`byteNumber, this`savedAddress
      ensures byteNumber == old(byteNumber) + Scale(size, f.kind)
      ensures savedAddress == old(savedAddress) + if f.saving then Scale(size, f.kind) else 0
    {
      byteNumber := byteNumber + Scale(size, f.kind);
      if f.saving {
        savedAddress := savedAddress + Scale(size, f.kind);
      }
    }

    /** A variable is entered and the counters move on. */
    method TakeUserTaskVariable(area: Area, f: Field, size: nat)
      modifies this
      ensures UserState() == Placed(area, old(UserState()), f, size)
      ensures SavedSize() - savedAddress == old(SavedSize() - savedAddress)
      ensures structureNumber == old(structureNumber)
    {
      AddUserTaskVariable(area, f, size);
      Advance(f, size);
    }

    /** An array of nested structures: one variable for each element. */
    method HandleUserTaskStruct(area: Area, f: Field)
      modifies this
      ensures UserState() == PlacedTimes(area, old(UserState()), f, f.size)
      ensures SavedSize() - savedAddress == old(SavedSize() - savedAddress)
      ensures structureNumber == old(structureNumber)
    {
      var i := 0;
      while i < f.size
        invariant i <= f.size
        invariant UserState() == PlacedTimes(area, old(UserState()), f, i)
        invariant SavedSize() - savedAddress == old(SavedSize() - savedAddress)
        invariant structureNumber == old(structureNumber)
      {
        TakeUserTaskVariable(area, f, TASK_INFO_SIZE);
        i := i + 1;
      }
    }

    /** One declaration of a user task (regs_handl.py:157-180). */
    method HandleUserTaskField(area: Area, f: Field) returns (ok: bool)
      modifies this
      ensures ok <==> PlacedField(area, old(UserState()), f).Some?
      ensures ok ==> UserState() == PlacedField(area, old(UserState()), f).value
      ensures ok ==> SavedSize() - savedAddress == old(SavedSize() - savedAddress)
      ensures structureNumber == old(structureNumber)
    {
      ok := true;
      if f.isStruct {
        sizeValue := TASK_INFO_SIZE;
      }
      if f.size > 0 {
        if f.kind == Time {
          return false;
        }
        if f.isStruct {
          HandleUserTaskStruct(area, f);
        } else {
          TakeUserTaskVariable(area, f, f.size);
        }
      }
    }

    /** All declarations of a user task; the size of its buffer (regs_generator.py:133-135). */
    method HandleUserTask(area: Area, fields: seq<Field>) returns (ok: bool, bufferSize: nat)
      requires forall n :: n in userTaskEntries || n in userTaskSavedSizes ==> n <= structureNumber
      modifies this
      ensures ok <==> Laid(area, Counters(0, 0, 0, []), fields, |fields|).Some?
      ensures ok ==>
                && UserState() == Laid(area, Counters(0, 0, 0, []), fields, |fields|).value
                && bufferSize == BufferSize(UserState().savedAddress)
    {
      StartUserTask();
      ok := true;
      bufferSize := 0;
      var n := 0;
      while n < |fields| && ok
        invariant n <= |fields|
        invariant ok <==> Laid(area, Counters(0, 0, 0, []), fields, n).Some?
        invariant ok ==> UserState() == Laid(area, Counters(0, 0, 0, []), fields, n).value
        invariant ok ==> SavedSize() == savedAddress
      {
        ok := HandleUserTaskField(area, fields[n]);
        n := n + 1;
      }
      if ok {
        bufferSize := Max(SavedSize() + 4, 4);
      } else {
        LaidStaysNone(area, Counters(0, 0, 0, []), fields, n, |fields|);
      }
    }

    // ------------------------------------------------------------------- the main structure

    /** The entries of the structures of this side; `client` is the side of other devices. */
    function Entries(client: bool): seq<Register>
      reads this
    {
      if client then clientEntries else mainEntries
    }

    function Last(client: bool): int
      reads this
    {
      if client then lastModbusAddressClient else lastModbusAddress
    }

    function MainState(client: bool): Counters
      reads this
    {
      Counters(byteNumber, ind, savedAddress, Entries(client))
    }

    /** The area as `update_modbus_area` left it after the last entry. */
    ghost predicate AreaFollows(area: Area, client: bool, space: string, last: int, from: Option<nat>)
      reads this
    {
      && sizeValue == (if from.Some? then TASK_INFO_SIZE else 0)
      && (from.Some? ==> from.value <= |Entries(client)|)
      && Last(client) == EndBefore(last, Entries(client), from, |Entries(client)|)
      && (space in modbusAreas <==> Entries(client) != [])
      && (space in modbusAreas ==>
            modbusAreas[space] == ModbusArea(area.startAddress, area.mdbFunction, Last(client)))
    }

    /** `update_modbus_area`: false stands for the error that stops the generator. */
    method UpdateModbusArea(area: Area, client: bool, space: string, kind: Kind, description: nat) returns (ok: bool)
      modifies this`lastModbusAddress, this`lastModbusAddressClient, this`modbusAreas
      ensures var end := AreaLast(description, sizeValue * SizeInByte(kind));
              && (ok <==> (space in old(modbusAreas) ==>
                             && old(modbusAreas)[space].base == area.startAddress
                             && old(modbusAreas)[space].mdbFunction == area.mdbFunction
                             && old(modbusAreas)[space].last < end)
                          && description % 65536 > old(Last(client)))
              && (ok ==> var now := ModbusArea(area.startAddress, area.mdbFunction, end);
                         Last(client) == end && modbusAreas == old(modbusAreas)[space := now])
      ensures Last(!client) == old(Last(!client))
    {
      var end, start := AreaLast(description, sizeValue * SizeInByte(kind)), description % 65536;
      if space in modbusAreas
         && (modbusAreas[space].base != area.startAddress || modbusAreas[space].mdbFunction != area.mdbFunction
             || modbusAreas[space].last >= end) {
        return false;
      }
      if client {
        if start > lastModbusAddressClient {
          lastModbusAddressClient := end;
        } else {
          return false;
        }
      } else {
        if start > lastModbusAddress {
          lastModbusAddress := end;
        } else {
          return false;
        }
      }
      modbusAreas := modbusAreas[space := ModbusArea(area.startAddress, area.mdbFunction, end)];
      return true;
    }

    /** The check of an entry, before it is appended. */
    method CheckEntry(area: Area, client: bool, space: string, f: Field, size: nat, ghost last: int,
                      ghost from: Option<nat>) returns (ok: bool)
      requires AreaFollows(area, client, space, last, from)
      modifies this`lastModbusAddress, this`lastModbusAddressClient, this`modbusAreas
      ensures var entry, n := Entry(area, MainState(client), f, size), |Entries(client)|;
              && (ok <==> LinkOk(last, Entries(client) + [entry], from, n))
              && (ok ==> && Last(client) == AreaEnd(entry, IsNested(from, n)) && space in modbusAreas
                         && modbusAreas[space] == ModbusArea(area.startAddress, area.mdbFunction, Last(client)))
    {
      ghost var entry := Entry(area, MainState(client), f, size);
      EndOfDescription(entry, Description(area, byteNumber), sizeValue);
      EndBeforeAppend(last, Entries(client), from, entry);
      ok := UpdateModbusArea(area, client, space, f.kind, Description(area, byteNumber));
    }

    /** `add_variable_to_regs_description` and the advance of the counters behind it. */
    method TakeMainVariable(area: Area, client: bool, space: string, f: Field, size: nat, ghost last: int,
                            ghost from: Option<nat>) returns (ok: bool)
      requires AreaFollows(area, client, space, last, from) && Chained(last, Entries(client), from)
      modifies this`byteNumber, this`ind, this`savedAddress, this`mainEntries, this`clientEntries,
               this`lastModbusAddress, this`lastModbusAddressClient, this`modbusAreas
      ensures var placed := Placed(area, old(MainState(client)), f, size);
              && (ok <==> Chained(last, placed.regs, from))
              && (ok ==> MainState(client) == placed && AreaFollows(area, client, space, last, from))
    {
      ChainedAppend(last, Entries(client), from, Entry(area, MainState(client), f, size));
      ok := CheckEntry(area, client, space, f, size, last, from);
      if ok {
        EnterMainVariable(area, client, f, size);
      }
    }

    /** The entry is made and the counters move on. */
    method EnterMainVariable(area: Area, client: bool, f: Field, size: nat)
      modifies this`byteNumber, this`ind, this`savedAddress, this`mainEntries, this`clientEntries
      ensures MainState(client) == Placed(area, old(MainState(client)), f, size)
    {
      ghost var cs := MainState(client);
      var entry := Entry(area, Counters(byteNumber, ind, savedAddress, []), f, size);
      EntryOfCounters(area, cs, Counters(byteNumber, ind, savedAddress, []), f, size);
      AppendEntry(client, entry);
      ind := ind + 1;
      Advance(f, size);
    }

    /** An entry does not depend on the entries before it. */
    static lemma EntryOfCounters(area: Area, cs: Counters, bare: Counters, f: Field, size: nat)
      requires bare == cs.(regs := bare.regs)
      ensures Entry(area, bare, f, size) == Entry(area, cs, f, size)
    {
    }

    method AppendEntry(client: bool, entry: Register)
      modifies this`mainEntries, this`clientEntries
      ensures Entries(client) == old(Entries(client)) + [entry] && Entries(!client) == old(Entries(!client))
    {
      if client {
        clientEntries := clientEntries + [entry];
      } else {
        mainEntries := mainEntries + [entry];
      }
    }

    /** The elements of a nested structure, one variable each. */
    method TakeMainStruct(area: Area, client: bool, space: string, f: Field, ghost last: int, ghost from: Option<nat>)
      returns (ok: bool)
      requires AreaFollows(area, client, space, last, from) && Chained(last, Entries(client), from)
      modifies this`byteNumber, this`ind, this`savedAddress, this`mainEntries, this`clientEntries,
               this`lastModbusAddress, this`lastModbusAddressClient, this`modbusAreas
      ensures var placed := PlacedTimes(area, old(MainState(client)), f, f.size);
              && (ok <==> Chained(last, placed.regs, from))
              && (ok ==> MainState(client) == placed && AreaFollows(area, client, space, last, from))
    {
      ghost var start := MainState(client);
      var i := 0;
      while i < f.size
        invariant i <= f.size
        invariant AreaFollows(area, client, space, last, from) && Chained(last, Entries(client), from)
        invariant MainState(client) == PlacedTimes(area, start, f, i)
      {
        ok := TakeMainVariable(area, client, space, f, TASK_INFO_SIZE, last, from);
        i := i + 1;
        if !ok {
          TimesRejected(area, start, f, i, f.size, last, from);
          return;
        }
      }
      ok := true;
    }

    /** One declaration of the main structure (regs_handl.py:217-247). */
    method HandleMainField(area: Area, client: bool, space: string, f: Field, ghost last: int, ghost from: Option<nat>)
      returns (ok: bool)
      requires AreaFollows(area, client, space, last, from) && Chained(last, Entries(client), from)
      modifies this`byteNumber, this`ind, this`savedAddress, this`mainEntries, this`clientEntries, this`sizeValue,
               this`lastModbusAddress, this`lastModbusAddressClient, this`modbusAreas
      ensures var placed := PlacedField(area, old(MainState(client)), f);
              var now := NestedAfter(from, f, |old(Entries(client))|);
              && (ok <==> placed.Some? && Chained(last, placed.value.regs, now))
              && (ok ==> MainState(client) == placed.value && AreaFollows(area, client, space, last, now))
    {
      ok := true;
      ghost var now := NestedAfter(from, f, |Entries(client)|);
      if f.isStruct {
        sizeValue := TASK_INFO_SIZE;
      }
      NestedBehind(last, Entries(client), from, now);
      if f.size > 0 {
        if f.kind == Time {
          return false;
        }
        if f.isStruct {
          ok := TakeMainStruct(area, client, space, f, last, now);
        } else {
          ok := TakeMainVariable(area, client, space, f, f.size, last, now);
        }
      }
    }

    /** The first `n` declarations have been read and accepted. */
    ghost predicate MainRead(area: Area, client: bool, space: string, fields: seq<Field>, n: nat, last: int,
                             nested: bool)
      requires n <= |fields|
      reads this
    {
      && AreaFollows(area, client, space, last, NestedFrom(area, fields, n, nested))
      && Laid(area, MAIN_START, fields, n) == Some(MainState(client))
      && Chained(last, Entries(client), NestedFrom(area, fields, n, nested))
    }

    method HandleMainNext(area: Area, client: bool, space: string, fields: seq<Field>, n: nat, ghost last: int,
                          ghost nested: bool) returns (ok: bool)
      requires n < |fields| && MainRead(area, client, space, fields, n, last, nested)
      modifies this`byteNumber, this`ind, this`savedAddress, this`mainEntries, this`clientEntries, this`sizeValue,
               this`lastModbusAddress, this`lastModbusAddressClient, this`modbusAreas
      ensures ok ==> MainRead(area, client, space, fields, n + 1, last, nested)
      ensures !ok ==> var laid := Laid(area, MAIN_START, fields, n + 1);
                      laid.Some? ==> !Chained(last, laid.value.regs, NestedFrom(area, fields, n + 1, nested))
    {
      NestedStep(area, fields, n, nested, MainState(client));
      ok := HandleMainField(area, client, space, fields[n], last, NestedFrom(area, fields, n, nested));
    }

    /**
      The declarations of a main structure: they are accepted exactly when their layout exists
      and every entry passes the check of its Modbus address.
     */
    method HandleMain(area: Area, client: bool, space: string, fields: seq<Field>) returns (ok: bool)
      requires ind == 0 && savedAddress == MAIN_FIRST_SLOT && Entries(client) == [] && space !in modbusAreas
      requires sizeValue == 0 || sizeValue == TASK_INFO_SIZE
      modifies this
      ensures var laid := Laid(area, Counters(0, 0, MAIN_FIRST_SLOT, []), fields, |fields|);
              && (ok <==> laid.Some? && Chained(old(Last(client)), laid.value.regs,
                                                NestedFrom(area, fields, |fields|, old(sizeValue) != 0)))
              && (ok ==> MainState(client) == laid.value)
    {
      structureNumber := structureNumber + 1;
      byteNumber := 0;
      ghost var last, nested := Last(client), sizeValue != 0;
      ok := true;
      var n := 0;
      while n < |fields|
        invariant n <= |fields| && ok && MainRead(area, client, space, fields, n, last, nested)
      {
        ok := HandleMainNext(area, client, space, fields, n, last, nested);
        n := n + 1;
        if !ok {
          RejectedForGood(area, fields, n, nested, last);
          return;
        }
      }
    }
  }

  // -------------------------------------------------------------- nested structures among fields

  /** Where nested entries begin, one declaration later. */
  function NestedAfter(from: Option<nat>, f: Field, entries: nat): Option<nat> {
    if from.None? && f.isStruct then Some(entries) else from
  }

  /** The number of entries before the first nested structure among the first `n` fields, if there is one. */
  function NestedFrom(area: Area, fields: seq<Field>, n: nat, nested: bool): Option<nat>
    requires n <= |fields|
  {
    if nested then Some(0)
    else if n == 0 then None
    else
      var before, laid := NestedFrom(area, fields, n - 1, false), Laid(area, MAIN_START, fields, n - 1);
      NestedAfter(before, fields[n - 1], if laid.Some? then |laid.value.regs| else 0)
  }

  const MAIN_START := Counters(0, 0, MAIN_FIRST_SLOT, [])

  lemma NestedStep(area: Area, fields: seq<Field>, n: nat, nested: bool, cs: Counters)
    requires n < |fields| && Laid(area, MAIN_START, fields, n) == Some(cs)
    ensures NestedFrom(area, fields, n + 1, nested) ==
            NestedAfter(NestedFrom(area, fields, n, nested), fields[n], |cs.regs|)
    ensures Laid(area, MAIN_START, fields, n + 1) == PlacedField(area, cs, fields[n])
  {
  }

  /** A nested structure behind all entries does not matter to them. */
  lemma NestedBehind(last: int, regs: seq<Register>, from: Option<nat>, now: Option<nat>)
    requires now == from || (from.None? && now == Some(|regs|))
    ensures Chained(last, regs, now) <==> Chained(last, regs, from)
    ensures EndBefore(last, regs, now, |regs|) == EndBefore(last, regs, from, |regs|)
  {
    if Chained(last, regs, now) {
      ChainedPrefix(last, regs, regs, from, now);
    }
    if Chained(last, regs, from) {
      ChainedPrefix(last, regs, regs, now, from);
    }
  }

  /** Entries of the first `n` fields are nested, or not, whatever fields follow. */
  lemma {:induction false} NestedLater(area: Area, fields: seq<Field>, n: nat, m: nat, nested: bool, i: nat)
    requires n <= m <= |fields| && Laid(area, MAIN_START, fields, m).Some?
    requires Laid(area, MAIN_START, fields, n).Some? && i < |Laid(area, MAIN_START, fields, n).value.regs|
    ensures IsNested(NestedFrom(area, fields, n, nested), i) <==> IsNested(NestedFrom(area, fields, m, nested), i)
    decreases m
  {
    if n < m {
      var cs := Laid(area, MAIN_START, fields, m - 1).value;
      NestedLater(area, fields, n, m - 1, nested, i);
      LaidGrows(area, MAIN_START, fields, n, m - 1);
      NestedStep(area, fields, m - 1, nested, cs);
    }
  }

  /** Entries are only ever appended. */
  lemma {:induction false} LaidGrows(area: Area, start: Counters, fields: seq<Field>, n: nat, m: nat)
    requires n <= m <= |fields| && Laid(area, start, fields, n).Some? && Laid(area, start, fields, m).Some?
    ensures Laid(area, start, fields, n).value.regs <= Laid(area, start, fields, m).value.regs
    decreases m
  {
    if n < m {
      LaidGrows(area, start, fields, n, m - 1);
      TimesGrow(area, Laid(area, start, fields, m - 1).value, fields[m - 1], 0, fields[m - 1].size);
    }
  }

  /** No later entry mends a missing layout or an entry that did not pass the check. */
  lemma RejectedForGood(area: Area, fields: seq<Field>, n: nat, nested: bool, last: int)
    requires n <= |fields|
    requires var laid := Laid(area, MAIN_START, fields, n);
             laid.Some? ==> !Chained(last, laid.value.regs, NestedFrom(area, fields, n, nested))
    ensures var laid := Laid(area, MAIN_START, fields, |fields|);
            laid.Some? ==> !Chained(last, laid.value.regs, NestedFrom(area, fields, |fields|, nested))
  {
    var now, later := Laid(area, MAIN_START, fields, n), Laid(area, MAIN_START, fields, |fields|);
    if now == None {
      LaidStaysNone(area, MAIN_START, fields, n, |fields|);
    } else if later.Some? && Chained(last, later.value.regs, NestedFrom(area, fields, |fields|, nested)) {
      LaidGrows(area, MAIN_START, fields, n, |fields|);
      forall i | 0 <= i < |now.value.regs|
        ensures IsNested(NestedFrom(area, fields, n, nested), i) <==>
                IsNested(NestedFrom(area, fields, |fields|, nested), i)
      {
        NestedLater(area, fields, n, |fields|, nested, i);
      }
      ChainedPrefix(last, now.value.regs, later.value.regs, NestedFrom(area, fields, n, nested),
                    NestedFrom(area, fields, |fields|, nested));
    }
  }

  /** No later element of a nested structure mends one that did not pass the check. */
  lemma TimesRejected(area: Area, cs: Counters, f: Field, n: nat, m: nat, last: int, from: Option<nat>)
    requires n <= m && !Chained(last, PlacedTimes(area, cs, f, n).regs, from)
    ensures !Chained(last, PlacedTimes(area, cs, f, m).regs, from)
  {
    TimesGrow(area, cs, f, n, m);
    var now, later := PlacedTimes(area, cs, f, n).regs, PlacedTimes(area, cs, f, m).regs;
    if Chained(last, later, from) {
      ChainedPrefix(last, now, later, from, from);
    }
  }

  lemma TimesGrow(area: Area, cs: Counters, f: Field, n: nat, m: nat)
    requires n <= m
    ensures PlacedTimes(area, cs, f, n).regs <= PlacedTimes(area, cs, f, m).regs
  {
    forall k: nat | n < k <= m ensures PlacedTimes(area, cs, f, k - 1).regs <= PlacedTimes(area, cs, f, k).regs {
      TimesNext(area, cs, f, k);
    }
    GrowsAlways((k: nat) => PlacedTimes(area, cs, f, k).regs, n, m);
  }

  /** What grows step by step grows. */
  lemma {:induction false} GrowsAlways<T>(s: nat -> seq<T>, n: nat, m: nat)
    requires n <= m && forall k: nat :: n < k <= m ==> s(k - 1) <= s(k)
    ensures s(n) <= s(m)
    decreases m
  {
    if n < m {
      GrowsAlways(s, n, m - 1);
      assert s(m - 1) <= s(m);
    }
  }

  lemma TimesNext(area: Area, cs: Counters, f: Field, m: nat)
    requires m > 0
    ensures PlacedTimes(area, cs, f, m - 1).regs <= PlacedTimes(area, cs, f, m).regs
  {
    PlacedGrows(area, PlacedTimes(area, cs, f, m - 1), f, TASK_INFO_SIZE);
  }

  lemma PlacedGrows(area: Area, cs: Counters, f: Field, size: nat)
    ensures cs.regs <= Placed(area, cs, f, size).regs
  {
  }

  lemma {:induction false} LaidStaysNone(area: Area, start: Counters, fields: seq<Field>, n: nat, m: nat)
    requires n <= m <= |fields| && Laid(area, start, fields, n) == None
    ensures Laid(area, start, fields, m) == None
    decreases m
  {
    if n < m {
      LaidStaysNone(area, start, fields, n, m - 1);
    }
  }

  // ------------------------------------------------------------- what the main path accepts

  /** Where every entry of a main structure stands. */
  lemma MainEntries(area: Area, fields: seq<Field>, i: nat)
    requires AreaOk(area) && forall k :: 0 <= k < |fields| ==> FieldOk(fields[k])
    requires var laid := Laid(area, MAIN_START, fields, |fields|);
             laid.Some? && WordsFit(area, laid.value) && i < |laid.value.regs|
    ensures var d := Laid(area, MAIN_START, fields, |fields|).value.regs[i];
            d.mdbFunction == area.mdbFunction && area.startAddress <= d.mdbAddress < 65536
  {
    var cs := Laid(area, MAIN_START, fields, |fields|).value;
    LaidSound(area, MAIN_START, fields, |fields|);
    EntryWord(area, MAIN_FIRST_SLOT, cs, i);
  }

  /**
    A main structure of coils or holding registers (functions 1 and 3) whose words fit is accepted
    exactly when its starts increase and nothing comes behind the entry of its first nested structure.
   */
  lemma HoldingRegistersExactly(area: Area, fields: seq<Field>, last: int, from: Option<nat>)
    requires AreaOk(area) && area.mdbFunction % 2 == 1 && forall k :: 0 <= k < |fields| ==> FieldOk(fields[k])
    requires var laid := Laid(area, MAIN_START, fields, |fields|); laid.Some? && WordsFit(area, laid.value)
    ensures var regs := Laid(area, MAIN_START, fields, |fields|).value.regs;
            Chained(last, regs, from) <==> StartsIncrease(last, regs) && (from.Some? ==> |regs| <= from.value + 1)
  {
    var regs := Laid(area, MAIN_START, fields, |fields|).value.regs;
    forall i | 0 <= i < |regs| ensures regs[i].mdbFunction == area.mdbFunction && regs[i].mdbAddress < 65536 {
      MainEntries(area, fields, i);
    }
    if from.Some? && from.value < |regs| {
      OddNestedIsLast(last, regs, from.value);
    } else {
      NoneNested(last, regs, from);
    }
  }

  /** Without an entry from `from` on there might as well be no nested structure. */
  lemma NoneNested(last: int, regs: seq<Register>, from: Option<nat>)
    requires from.Some? ==> |regs| <= from.value
    ensures Chained(last, regs, from) <==> StartsIncrease(last, regs)
  {
    ChainedWithoutNested(last, regs);
    if Chained(last, regs, from) {
      ChainedPrefix(last, regs, regs, None, from);
    }
    if Chained(last, regs, None) {
      ChainedPrefix(last, regs, regs, from, None);
    }
  }

  /**
    In a main structure of input registers (functions 2 and 4) that starts at the mask of its first
    nested structure or later, only the very first entry can be of a nested structure, and then no
    more than 112 entries are accepted.
   */
  lemma InputRegistersNested(area: Area, fields: seq<Field>, last: int, from: nat)
    requires AreaOk(area) && area.mdbFunction % 2 == 0 && forall k :: 0 <= k < |fields| ==> FieldOk(fields[k])
    requires var laid := Laid(area, MAIN_START, fields, |fields|);
             && laid.Some? && WordsFit(area, laid.value) && from < |laid.value.regs|
             && area.startAddress >= Mask(laid.value.regs[from].kind)
             && Chained(last, laid.value.regs, Some(from))
    ensures from == 0 && |Laid(area, MAIN_START, fields, |fields|).value.regs| <= 112
  {
    var regs := Laid(area, MAIN_START, fields, |fields|).value.regs;
    forall i | 0 <= i < |regs|
      ensures regs[i].mdbFunction == area.mdbFunction && regs[i].mdbAddress >= area.startAddress
    {
      MainEntries(area, fields, i);
    }
    EvenNestedIsFirst(last, regs, from);
  }
}
