/**
  The layout that the generator computes (generator/regs_handl.py and
  generator/regs_generator.py): addresses, slots, Modbus words and GUIDs of the registers of a
  structure, and the checks it makes.

  It establishes what the firmware relies on: sorted and disjoint registers, slots clear of
  the checksum, sorted GUIDs, and sorted Modbus words exactly when no register hides another.
 */
module Layout {
  import opened Bits
  import opened Memory
  import opened Registers
  import opened Lookup

  /** What `check` finds out about one declaration; `size` 0 means that it found none. */
  datatype Field = Field(
    kind: Kind,
    size: nat,
    isStruct: bool,
    defaultValue: Option<seq<byte>>,
    minValue: Option<seq<byte>>,
    maxValue: Option<seq<byte>>,
    readOnly: bool,
    saving: bool,
    credential: bool,
    isVersion: bool)

  /** The description of a structure, and where its variables lie in memory. */
  datatype Area = Area(base: nat, startAddress: nat, mdbFunction: nat, addressSpace: nat)

  predicate AreaOk(a: Area) {
    a.base > 0 && a.startAddress < 65535 && 1 <= a.mdbFunction <= 4 && a.addressSpace < 100
  }

  /** `size_value` of the one nested structure, `task_info_t`, in bytes. */
  const TASK_INFO_SIZE: nat := 28

  /** The counters of the generator and the entries it has made. */
  datatype Counters = Counters(byteNumber: nat, ind: nat, savedAddress: nat, regs: seq<Register>)

  // ------------------------------------------------------------------------------ GUIDs

  const GUID_OS_HEAD: nat := 0x00000000
  const GUID_USER_HEAD: nat := 0x10000000

  function FunctionBits(mdbFunction: nat): nat {
    match mdbFunction
    case 1 => 0x01000000
    case 2 => 0x02000000
    case 3 => 0x04000000
    case 4 => 0x08000000
    case _ => 0
  }

  /** `compute_guid` */
  function ComputeGuid(addressSpace: nat, mdbFunction: nat, ind: nat): nat {
    if addressSpace == 0 then Or(Or(GUID_OS_HEAD, mdbFunction * 0x100000), ind)
    else Or(Or(Or(GUID_USER_HEAD, FunctionBits(mdbFunction)), addressSpace * 0x2000), ind)
  }

  lemma {:induction false} OrZero(b: nat)
    ensures Or(0, b) == b
  {
    if b > 0 {
      OrZero(b / 2);
    }
  }

  /** Where no digits meet, `|` is addition. */
  lemma {:induction false} OrIsSum(high: nat, low: nat, n: nat)
    requires low < Pow2(n)
    ensures Or(high * Pow2(n), low) == high * Pow2(n) + low
  {
    if n == 0 {
      OrZeroRight(high);
    } else {
      OrIsSum(high, low / 2, n - 1);
      Doubled(high, 0, Pow2(n - 1), Pow2(n));
      if high * Pow2(n) == 0 && low == 0 {
        OrZero(0);
      }
    }
  }

  lemma {:induction false} OrZeroRight(a: nat)
    ensures Or(a, 0) == a
  {
    if a > 0 {
      OrZeroRight(a / 2);
    }
  }

  /** A multiple of a power of two and a number below it. */
  lemma OrOfParts(high: nat, low: nat, n: nat)
    requires low < Pow2(n) && high % Pow2(n) == 0
    ensures Or(high, low) == high + low
  {
    assert high == high / Pow2(n) * Pow2(n);
    OrIsSum(high / Pow2(n), low, n);
  }

  lemma Powers()
    ensures Pow2(13) == 0x2000 && Pow2(20) == 0x100000 && Pow2(28) == 0x10000000
  {
    assert Pow2(4) == 16;
    assert Pow2(8) == 256;
    assert Pow2(12) == 4096;
    assert Pow2(16) == 0x10000;
    assert Pow2(20) == 0x100000;
    assert Pow2(24) == 0x1000000;
  }

  /** The parts of a GUID do not overlap. */
  lemma GuidValue(addressSpace: nat, mdbFunction: nat, ind: nat)
    requires addressSpace < 100 && 1 <= mdbFunction <= 4 && ind < 8192
    ensures ComputeGuid(addressSpace, mdbFunction, ind) ==
            if addressSpace == 0 then mdbFunction * 0x100000 + ind
            else GUID_USER_HEAD + FunctionBits(mdbFunction) + addressSpace * 0x2000 + ind
  {
    if addressSpace == 0 {
      OsGuid(mdbFunction * 0x100000, ind);
    } else {
      UserGuid(GUID_USER_HEAD, FunctionBits(mdbFunction), addressSpace * 0x2000, ind);
    }
  }

  /** GUIDs in numbers: user spaces lie behind 0x10000000, with one bit for the function. */
  lemma GuidInNumbers(addressSpace: nat, mdbFunction: nat, ind: nat)
    requires addressSpace < 100 && 1 <= mdbFunction <= 4 && ind < 8192
    ensures ComputeGuid(addressSpace, mdbFunction, ind) ==
            if addressSpace == 0 then mdbFunction * 1048576 + ind
            else 268435456 + 8192 * addressSpace + ind
                 + (if mdbFunction == 1 then 16777216 else if mdbFunction == 2 then 33554432
                    else if mdbFunction == 3 then 67108864 else 134217728)
  {
    GuidValue(addressSpace, mdbFunction, ind);
  }

  lemma OsGuid(high: nat, ind: nat)
    requires ind < 0x2000 && high % 0x2000 == 0
    ensures Or(Or(GUID_OS_HEAD, high), ind) == high + ind
  {
    Powers();
    OrZero(high);
    OrOfParts(high, ind, 13);
  }

  lemma UserGuid(head: nat, bits: nat, space: nat, ind: nat)
    requires head == 0x10000000 && ind < 0x2000 && space % 0x2000 == 0 && space < 0x100000
    requires bits == 0x01000000 || bits == 0x02000000 || bits == 0x04000000 || bits == 0x08000000
    ensures Or(Or(Or(head, bits), space), ind) == head + bits + space + ind
  {
    Powers();
    OrOfFour(head, bits, space, ind, 28, 20, 13);
  }

  lemma OrOfTwoMore(ab: nat, c: nat, d: nat, q: nat, r: nat)
    requires ab % Pow2(q) == 0 && c < Pow2(q) && (ab + c) % Pow2(r) == 0 && d < Pow2(r)
    ensures Or(Or(ab, c), d) == ab + c + d
  {
    OrOfParts(ab, c, q);
    OrOfParts(ab + c, d, r);
  }

  lemma OrOfFour(a: nat, b: nat, c: nat, d: nat, p: nat, q: nat, r: nat)
    requires a % Pow2(p) == 0 && b < Pow2(p) && (a + b) % Pow2(q) == 0 && c < Pow2(q)
    requires (a + b + c) % Pow2(r) == 0 && d < Pow2(r)
    ensures Or(Or(Or(a, b), c), d) == a + b + c + d
  {
    OrOfParts(a, b, p);
    OrOfTwoMore(a + b, c, d, q, r);
  }

  /** Different places have different GUIDs. */
  lemma GuidInjective(s: nat, f: nat, i: nat, s': nat, f': nat, i': nat)
    requires s < 100 && 1 <= f <= 4 && i < 8192 && s' < 100 && 1 <= f' <= 4 && i' < 8192
    ensures ComputeGuid(s, f, i) == ComputeGuid(s', f', i') ==> s == s' && f == f' && i == i'
  {
    GuidValue(s, f, i);
    GuidValue(s', f', i');
  }

  /** Inside a structure GUIDs increase with the index. */
  lemma GuidIncreases(s: nat, f: nat, i: nat, j: nat)
    requires s < 100 && 1 <= f <= 4 && i < j < 8192
    ensures ComputeGuid(s, f, i) < ComputeGuid(s, f, j)
  {
    GuidValue(s, f, i);
    GuidValue(s, f, j);
  }

  // --------------------------------------------------------------------- placing entries

  /** `RD_MDB_FUNCTION` and `RD_MDB_ADDRESS` of the description word of an entry. */
  function Description(area: Area, byteNumber: nat): nat {
    area.startAddress + byteNumber / 2 + area.mdbFunction * 65536
  }

  /** The entry for `size` values of a field at the current counters. */
  function Entry(area: Area, cs: Counters, f: Field, size: nat): Register {
    var description := Description(area, cs.byteNumber);
    Register(f.kind, size, area.base + cs.byteNumber, if f.saving then cs.savedAddress else 0,
             ComputeGuid(area.addressSpace, area.mdbFunction, cs.ind),
             description / 65536 % 16, description % 65536,
             f.defaultValue, f.minValue, f.maxValue, f.readOnly, f.saving, f.credential, f.isVersion)
  }

  /** One entry is made and the counters move on. */
  function Placed(area: Area, cs: Counters, f: Field, size: nat): Counters {
    var bytes := Scale(size, f.kind);
    Counters(cs.byteNumber + bytes, cs.ind + 1, if f.saving then cs.savedAddress + bytes else cs.savedAddress,
             cs.regs + [Entry(area, cs, f, size)])
  }

  /** `n` elements of a nested structure, one entry each. */
  function PlacedTimes(area: Area, cs: Counters, f: Field, n: nat): Counters {
    if n == 0 then cs else Placed(area, PlacedTimes(area, cs, f, n - 1), f, TASK_INFO_SIZE)
  }

  /** One declaration. `REGS_SIZE` has no entry for times: such a declaration is an error. */
  function PlacedField(area: Area, cs: Counters, f: Field): Option<Counters> {
    if f.size == 0 then Some(cs)
    else if f.kind == Time then None
    else if f.isStruct then Some(PlacedTimes(area, cs, f, f.size))
    else Some(Placed(area, cs, f, f.size))
  }

  /** The first `n` declarations of a structure. */
  function Laid(area: Area, start: Counters, fields: seq<Field>, n: nat): Option<Counters>
    requires n <= |fields|
  {
    if n == 0 then Some(start)
    else
      var before := Laid(area, start, fields, n - 1);
      if before == None then None else PlacedField(area, before.value, fields[n - 1])
  }

  lemma LaidNext(area: Area, start: Counters, fields: seq<Field>, n: nat, cs: Counters)
    requires n < |fields| && Laid(area, start, fields, n) == Some(cs)
    ensures Laid(area, start, fields, n + 1) == PlacedField(area, cs, fields[n])
  {
  }

  /** A field of one value, or of one nested structure, makes one entry. */
  lemma LaidSingle(area: Area, start: Counters, fields: seq<Field>, n: nat, cs: Counters)
    requires n < |fields| && Laid(area, start, fields, n) == Some(cs) && fields[n].size == 1 && fields[n].kind != Time
    ensures Laid(area, start, fields, n + 1) == Some(Placed(area, cs, fields[n], PieceSize(fields[n])))
  {
    LaidNext(area, start, fields, n, cs);
    OneNested(area, cs, fields[n]);
  }

  /** One element of a nested structure is one entry. */
  lemma OneNested(area: Area, cs: Counters, f: Field)
    ensures PlacedTimes(area, cs, f, 1) == Placed(area, cs, f, TASK_INFO_SIZE)
  {
    assert PlacedTimes(area, cs, f, 0) == cs;
  }

  // ------------------------------------------------------------------------- the invariant

  function PieceSize(f: Field): nat {
    if f.isStruct then TASK_INFO_SIZE else f.size
  }

  /** The C objects behind a declaration have the declaration's own size. */
  predicate FieldOk(f: Field) {
    var bytes := Scale(PieceSize(f), f.kind);
    && (f.defaultValue.Some? ==> |f.defaultValue.value| == bytes)
    && (f.minValue.Some? ==> !IsReal(f.kind) && |f.minValue.value| == bytes)
    && (f.maxValue.Some? ==> !IsReal(f.kind) && |f.maxValue.value| == bytes)
    && (f.isVersion ==> bytes == 4)
  }

  /** Register `i` is the one that belongs at its place. */
  predicate EntryOk(area: Area, first: nat, cs: Counters, i: nat)
    requires i < |cs.regs|
  {
    var d := cs.regs[i];
    && d.Ok() && area.base <= d.address
    && d.End() == (if i + 1 < |cs.regs| then cs.regs[i + 1].address else area.base + cs.byteNumber)
    && d.guid == ComputeGuid(area.addressSpace, area.mdbFunction, i)
    && d.mdbFunction == Description(area, d.address - area.base) / 65536 % 16
    && d.mdbAddress == Description(area, d.address - area.base) % 65536
    && (d.saving ==> first <= d.savedAddress && d.savedAddress + d.Bytes() <= cs.savedAddress)
  }

  /** No two registers overlap, in memory or in the mirror. */
  predicate PairOk(cs: Counters, i: nat, j: nat)
    requires i < j < |cs.regs|
  {
    var d, e := cs.regs[i], cs.regs[j];
    d.End() <= e.address && (d.saving && e.saving ==> d.savedAddress + d.Bytes() <= e.savedAddress)
  }

  /** Some slot reaches up to the next free one. */
  predicate LastSlot(cs: Counters, i: nat) {
    i < |cs.regs| && cs.regs[i].saving && cs.regs[i].savedAddress + cs.regs[i].Bytes() == cs.savedAddress
  }

  /** `first` is the first free byte of the mirror. */
  ghost predicate Sound(area: Area, first: nat, cs: Counters) {
    && area.base > 0 && |cs.regs| == cs.ind && first <= cs.savedAddress
    && (cs.regs == [] ==> cs.byteNumber == 0)
    && (forall i :: 0 <= i < |cs.regs| ==> EntryOk(area, first, cs, i))
    && (forall i, j :: 0 <= i < j < |cs.regs| ==> PairOk(cs, i, j))
    && (cs.savedAddress > first ==> exists i: nat :: LastSlot(cs, i))
  }

  lemma PlacedEntries(area: Area, first: nat, cs: Counters, f: Field, size: nat, i: nat)
    requires Sound(area, first, cs) && FieldOk(f) && size == PieceSize(f) > 0 && i <= |cs.regs|
    ensures EntryOk(area, first, Placed(area, cs, f, size), i)
  {
    var r := Placed(area, cs, f, size);
    if i < |cs.regs| {
      assert EntryOk(area, first, cs, i) && r.regs[i] == cs.regs[i];
    } else {
      assert r.regs[i] == Entry(area, cs, f, size);
    }
  }

  lemma PlacedPairs(area: Area, first: nat, cs: Counters, f: Field, size: nat, i: nat, j: nat)
    requires Sound(area, first, cs) && i < j <= |cs.regs|
    ensures PairOk(Placed(area, cs, f, size), i, j)
  {
    var n := |cs.regs|;
    if j < n {
      assert PairOk(cs, i, j);
    } else {
      assert EntryOk(area, first, cs, i);
      if i + 1 < n {
        assert EntryOk(area, first, cs, n - 1) && PairOk(cs, i, n - 1);
      }
    }
  }

  lemma PlacedSound(area: Area, first: nat, cs: Counters, f: Field, size: nat)
    requires Sound(area, first, cs) && FieldOk(f) && size == PieceSize(f) > 0
    ensures Sound(area, first, Placed(area, cs, f, size))
  {
    var r := Placed(area, cs, f, size);
    forall i | 0 <= i < |r.regs| ensures EntryOk(area, first, r, i) {
      PlacedEntries(area, first, cs, f, size, i);
    }
    forall i, j | 0 <= i < j < |r.regs| ensures PairOk(r, i, j) {
      PlacedPairs(area, first, cs, f, size, i, j);
    }
    if f.saving {
      assert LastSlot(r, |cs.regs|);
    } else if cs.savedAddress > first {
      var i: nat :| LastSlot(cs, i);
      assert LastSlot(r, i);
    }
  }

  lemma {:induction false} TimesSound(area: Area, first: nat, cs: Counters, f: Field, n: nat)
    requires Sound(area, first, cs) && FieldOk(f) && f.isStruct
    ensures Sound(area, first, PlacedTimes(area, cs, f, n))
  {
    if n > 0 {
      TimesSound(area, first, cs, f, n - 1);
      PlacedSound(area, first, PlacedTimes(area, cs, f, n - 1), f, TASK_INFO_SIZE);
    }
  }

  /** Every list of declarations leads to a sound layout. */
  lemma {:induction false} LaidSound(area: Area, start: Counters, fields: seq<Field>, n: nat)
    requires n <= |fields| && forall k :: 0 <= k < |fields| ==> FieldOk(fields[k])
    requires area.base > 0 && start.byteNumber == start.ind == 0 && start.regs == []
    ensures Laid(area, start, fields, n).Some? ==> Sound(area, start.savedAddress, Laid(area, start, fields, n).value)
  {
    if n > 0 {
      LaidSound(area, start, fields, n - 1);
      var before, f := Laid(area, start, fields, n - 1), fields[n - 1];
      if before.Some? && f.size > 0 && f.kind != Time {
        if f.isStruct {
          TimesSound(area, start.savedAddress, before.value, f, f.size);
        } else {
          PlacedSound(area, start.savedAddress, before.value, f, f.size);
        }
      }
    }
  }

  // --------------------------------------------------------------- what the firmware needs

  /** Addresses are sorted and every register is in order. */
  lemma SoundIsSorted(area: Area, first: nat, cs: Counters)
    requires Sound(area, first, cs)
    ensures AddressSorted(cs.regs)
    ensures forall i :: 0 <= i < |cs.regs| ==> cs.regs[i].Ok() && cs.regs[i].End() <= area.base + cs.byteNumber
  {
    forall i, j | 0 <= i < j < |cs.regs| ensures cs.regs[i].End() <= cs.regs[j].address {
      assert PairOk(cs, i, j);
    }
    forall i | 0 <= i < |cs.regs| ensures cs.regs[i].Ok() && cs.regs[i].End() <= area.base + cs.byteNumber {
      assert EntryOk(area, first, cs, i) && EntryOk(area, first, cs, |cs.regs| - 1);
      assert i < |cs.regs| - 1 ==> PairOk(cs, i, |cs.regs| - 1);
    }
  }

  /** The slots are disjoint and clear of the checksum exactly when the buffer is long enough. */
  lemma SlotsExactly(area: Area, first: nat, cs: Counters, bufferSize: nat)
    requires Sound(area, first, cs) && bufferSize >= 4
    ensures SlotsOk(cs.regs, bufferSize) <==> cs.savedAddress == first || cs.savedAddress + 4 <= bufferSize
  {
    forall i, j | 0 <= i < j < |cs.regs| && cs.regs[i].saving && cs.regs[j].saving
      ensures Disjoint(cs.regs[i].savedAddress, cs.regs[i].Bytes(), cs.regs[j].savedAddress, cs.regs[j].Bytes())
    {
      assert PairOk(cs, i, j);
    }
    forall i | 0 <= i < |cs.regs| && cs.regs[i].saving
      ensures first < cs.regs[i].savedAddress + cs.regs[i].Bytes() <= cs.savedAddress
    {
      assert EntryOk(area, first, cs, i);
    }
    if cs.savedAddress > first {
      var i: nat :| LastSlot(cs, i);
      assert SlotsOk(cs.regs, bufferSize) ==> cs.regs[i].savedAddress + cs.regs[i].Bytes() <= bufferSize - 4;
    }
  }

  lemma SoundGuids(area: Area, first: nat, cs: Counters)
    requires Sound(area, first, cs) && AreaOk(area) && cs.ind <= 8192
    ensures GuidSorted(cs.regs)
  {
    forall i, j | 0 <= i < j < |cs.regs| ensures cs.regs[i].guid < cs.regs[j].guid {
      assert EntryOk(area, first, cs, i) && EntryOk(area, first, cs, j);
      GuidIncreases(area.addressSpace, area.mdbFunction, i, j);
    }
  }

  /** The structure's Modbus words stay below 65536. */
  predicate WordsFit(area: Area, cs: Counters) {
    area.startAddress + cs.byteNumber / 2 < 65536
  }

  lemma EntryWord(area: Area, first: nat, cs: Counters, i: nat)
    requires Sound(area, first, cs) && AreaOk(area) && WordsFit(area, cs) && i < |cs.regs|
    ensures var d := cs.regs[i];
            && area.base <= d.address && d.End() <= area.base + cs.byteNumber
            && d.mdbFunction == area.mdbFunction && d.mdbAddress == area.startAddress + (d.address - area.base) / 2
            && (i + 1 < |cs.regs| ==> d.End() == cs.regs[i + 1].address)
  {
    SoundIsSorted(area, first, cs);
    assert EntryOk(area, first, cs, i);
  }

  /** A one-byte register in the lower half of a word: what follows it starts in the same word. */
  predicate SharesWord(area: Area, d: Register) {
    d.address >= area.base && d.Bytes() == 1 && (d.address - area.base) % 2 == 0
  }

  /**
    The words are sorted and disjoint, as the search by Modbus address needs it, exactly when
    no register but the last is a single byte in the lower half of a word.
   */
  lemma WordsExactly(area: Area, first: nat, cs: Counters)
    requires Sound(area, first, cs) && AreaOk(area) && WordsFit(area, cs)
    ensures WordSorted(cs.regs) <==> forall i :: 0 <= i < |cs.regs| - 1 ==> !SharesWord(area, cs.regs[i])
  {
    forall i, j | 0 <= i < j < |cs.regs|
      ensures cs.regs[i].mdbAddress < cs.regs[j].mdbAddress || SharesWord(area, cs.regs[i])
      ensures cs.regs[i].mdbAddress + cs.regs[i].Bytes() / 2 <= cs.regs[j].mdbAddress
      ensures cs.regs[i].mdbFunction == cs.regs[j].mdbFunction
    {
      WordsOfPair(area, first, cs, i, j);
    }
    if i :| 0 <= i < |cs.regs| - 1 && SharesWord(area, cs.regs[i]) {
      NextWord(area, first, cs, i);
    }
  }

  /** The next register starts in a later word, or in the word that a single byte shares. */
  lemma NextWord(area: Area, first: nat, cs: Counters, i: nat)
    requires Sound(area, first, cs) && AreaOk(area) && WordsFit(area, cs) && i + 1 < |cs.regs|
    ensures cs.regs[i].mdbAddress < cs.regs[i + 1].mdbAddress <==> !SharesWord(area, cs.regs[i])
  {
    EntryWord(area, first, cs, i);
    EntryWord(area, first, cs, i + 1);
    assert EntryOk(area, first, cs, i);
  }

  lemma WordsOfPair(area: Area, first: nat, cs: Counters, i: nat, j: nat)
    requires Sound(area, first, cs) && AreaOk(area) && WordsFit(area, cs) && i < j < |cs.regs|
    ensures var d, e := cs.regs[i], cs.regs[j];
            && d.mdbAddress + d.Bytes() / 2 <= e.mdbAddress && d.mdbFunction == e.mdbFunction
            && (d.mdbAddress < e.mdbAddress || SharesWord(area, d))
  {
    EntryWord(area, first, cs, i);
    EntryWord(area, first, cs, j);
    assert EntryOk(area, first, cs, i) && PairOk(cs, i, j);
  }

  /** A word of a register leads to byte 2w of the structure, one further for an odd register. */
  lemma WordIsByte(area: Area, first: nat, cs: Counters, i: nat, word: nat)
    requires Sound(area, first, cs) && AreaOk(area) && WordsFit(area, cs) && i < |cs.regs|
    requires HoldsWord(cs.regs[i], word, area.mdbFunction)
    ensures var d := cs.regs[i];
            && area.base <= d.address && area.startAddress <= d.mdbAddress <= word
            && d.address + (word - d.mdbAddress) * 2
               == area.base + 2 * (word - area.startAddress) + (d.address - area.base) % 2
  {
    EntryWord(area, first, cs, i);
  }

  /** The size of a user task's buffer: its slots and the checksum (regs_generator.py:133-135). */
  function BufferSize(savedSize: nat): nat {
    Max(savedSize + 4, 4)
  }

  function Max(a: nat, b: nat): nat {
    if a < b then b else a
  }

  /** A user task's table is in order, and its buffer is not a byte too long. */
  lemma UserTaskTable(area: Area, fields: seq<Field>, version: seq<byte>)
    requires area.base > 0 && |version| == 4 && forall k :: 0 <= k < |fields| ==> FieldOk(fields[k])
    ensures var laid := Laid(area, Counters(0, 0, 0, []), fields, |fields|);
            laid.Some? ==>
              && TableOk(Table(laid.value.regs, version, BufferSize(laid.value.savedAddress)))
              && (laid.value.savedAddress > 0 && BufferSize(laid.value.savedAddress) > 4 ==>
                    !SlotsOk(laid.value.regs, BufferSize(laid.value.savedAddress) - 1))
  {
    LaidSound(area, Counters(0, 0, 0, []), fields, |fields|);
    var laid := Laid(area, Counters(0, 0, 0, []), fields, |fields|);
    if laid.Some? {
      SoundIsSorted(area, 0, laid.value);
      SlotsExactly(area, 0, laid.value, BufferSize(laid.value.savedAddress));
      if BufferSize(laid.value.savedAddress) > 4 {
        SlotsExactly(area, 0, laid.value, BufferSize(laid.value.savedAddress) - 1);
      }
    }
  }

  const MAIN_BUFFER_SIZE: nat := 512
  const MAIN_FIRST_SLOT: nat := 16

  /**
    The main table, whose slots start at 16 in a buffer of 512 bytes, is in order exactly when
    its saved registers take at most 492 bytes: nothing checks that.
   */
  lemma MainTable(area: Area, fields: seq<Field>, version: seq<byte>)
    requires area.base > 0 && |version| == 4 && forall k :: 0 <= k < |fields| ==> FieldOk(fields[k])
    ensures var laid := Laid(area, Counters(0, 0, MAIN_FIRST_SLOT, []), fields, |fields|);
            laid.Some? ==>
              (TableOk(Table(laid.value.regs, version, MAIN_BUFFER_SIZE)) <==>
               laid.value.savedAddress - MAIN_FIRST_SLOT <= 492)
  {
    LaidSound(area, Counters(0, 0, MAIN_FIRST_SLOT, []), fields, |fields|);
    var laid := Laid(area, Counters(0, 0, MAIN_FIRST_SLOT, []), fields, |fields|);
    if laid.Some? {
      SoundIsSorted(area, MAIN_FIRST_SLOT, laid.value);
      SlotsExactly(area, MAIN_FIRST_SLOT, laid.value, MAIN_BUFFER_SIZE);
    }
  }

  /** Structures in different storage make tables in different storage. */
  lemma TablesOfAreas(areas: seq<Area>, firsts: seq<nat>, laid: seq<Counters>, tables: seq<Table>)
    requires |areas| == |firsts| == |laid| == |tables|
    requires forall t :: 0 <= t < |tables| ==> Sound(areas[t], firsts[t], laid[t]) && tables[t].regs == laid[t].regs
    requires forall t, u :: 0 <= t < u < |tables| ==>
               Disjoint(areas[t].base, laid[t].byteNumber, areas[u].base, laid[u].byteNumber)
    ensures TablesApart(tables)
  {
    forall t | 0 <= t < |tables|
      ensures forall i :: 0 <= i < |tables[t].regs| ==>
                && areas[t].base <= tables[t].regs[i].address
                && tables[t].regs[i].End() <= areas[t].base + laid[t].byteNumber
    {
      SoundIsSorted(areas[t], firsts[t], laid[t]);
      forall i | 0 <= i < |laid[t].regs| ensures areas[t].base <= laid[t].regs[i].address {
        assert EntryOk(areas[t], firsts[t], laid[t], i);
      }
    }
  }

  /**
    Tables that the generator laid out in different storage, with long enough buffers, are all
    that the lookups, the write path and the start-up ask of a device.
   */
  lemma LaidOutDevice(cfg: Config, memSize: nat, areas: seq<Area>, firsts: seq<nat>, laid: seq<Counters>)
    requires |areas| == |firsts| == |laid| == |cfg.tables| && cfg.commandAddress + 2 <= memSize
    requires forall t :: 0 <= t < |cfg.tables| ==>
               Sound(areas[t], firsts[t], laid[t]) && cfg.tables[t].regs == laid[t].regs
    requires forall t :: 0 <= t < |cfg.tables| ==>
               areas[t].base + laid[t].byteNumber <= memSize
               && |cfg.tables[t].version| == 4 && laid[t].savedAddress + 4 <= cfg.tables[t].bufferSize
    requires forall t, u :: 0 <= t < u < |cfg.tables| ==>
               Disjoint(areas[t].base, laid[t].byteNumber, areas[u].base, laid[u].byteNumber)
    ensures ConfigOk(cfg, memSize)
  {
    TablesOfAreas(areas, firsts, laid, cfg.tables);
    forall t | 0 <= t < |cfg.tables|
      ensures TableOk(cfg.tables[t])
      ensures forall i :: 0 <= i < |cfg.tables[t].regs| ==> cfg.tables[t].regs[i].End() <= memSize
    {
      SoundIsSorted(areas[t], firsts[t], laid[t]);
      SlotsExactly(areas[t], firsts[t], laid[t], cfg.tables[t].bufferSize);
    }
  }

  /** Different structures of the same firmware, laid out. */
  ghost predicate Different(areas: seq<Area>, firsts: seq<nat>, laid: seq<Counters>) {
    && |areas| == |firsts| == |laid|
    && (forall u :: 0 <= u < |areas| ==> Sound(areas[u], firsts[u], laid[u]) && AreaOk(areas[u]) && laid[u].ind <= 8192)
    && (forall u, v :: 0 <= u < v < |areas| ==>
          areas[u].addressSpace != areas[v].addressSpace || areas[u].mdbFunction != areas[v].mdbFunction)
  }

  /** No two registers of a firmware have the same GUID. */
  lemma GuidsAreUnique(areas: seq<Area>, firsts: seq<nat>, laid: seq<Counters>, t: nat, i: nat, u: nat, j: nat)
    requires Different(areas, firsts, laid)
    requires t < |areas| && i < |laid[t].regs| && u < |areas| && j < |laid[u].regs|
    ensures laid[t].regs[i].guid == laid[u].regs[j].guid <==> t == u && i == j
  {
    GuidOfEntry(areas[t], firsts[t], laid[t], i);
    GuidOfEntry(areas[u], firsts[u], laid[u], j);
    GuidInjective(areas[t].addressSpace, areas[t].mdbFunction, i, areas[u].addressSpace, areas[u].mdbFunction, j);
  }

  /** In laid out tables of different structures every GUID leads back to its register. */
  lemma {:induction false} GuidFindsItsRegister(areas: seq<Area>, firsts: seq<nat>, laid: seq<Counters>,
                                                tables: seq<Table>, t: nat, i: nat)
    requires Different(areas, firsts, laid) && |tables| == |laid|
    requires forall u :: 0 <= u < |tables| ==> tables[u].regs == laid[u].regs
    requires t < |tables| && i < |tables[t].regs|
    ensures FindGuid(tables, tables[t].regs[i].guid) == At(t, i)
  {
    forall u, j | 0 <= u < |tables| && 0 <= j < |tables[u].regs|
      ensures tables[u].regs[j].guid == tables[t].regs[i].guid ==> u == t && j == i
    {
      GuidsAreUnique(areas, firsts, laid, t, i, u, j);
    }
    FindGuidLeads(tables, tables[t].regs[i].guid, 0, t, i);
  }

  lemma GuidOfEntry(area: Area, first: nat, cs: Counters, i: nat)
    requires Sound(area, first, cs) && i < |cs.regs|
    ensures cs.regs[i].guid == ComputeGuid(area.addressSpace, area.mdbFunction, i)
  {
    assert EntryOk(area, first, cs, i);
  }

  /**
    A word of a laid out table, unless another table answers to it too, leads to byte 2w of its
    structure, one further for a register at an odd offset.
   */
  lemma WordFindsItsByte(area: Area, first: nat, cs: Counters, tables: seq<Table>, t: nat, i: nat, word: nat)
    requires Sound(area, first, cs) && AreaOk(area) && WordsFit(area, cs) && WordSorted(cs.regs)
    requires t < |tables| && tables[t].regs == cs.regs && i < |cs.regs| && HoldsWord(cs.regs[i], word, area.mdbFunction)
    requires forall u, j :: 0 <= u < |tables| && u != t && 0 <= j < |tables[u].regs| ==>
               !HoldsWord(tables[u].regs[j], word, area.mdbFunction)
    ensures area.base <= cs.regs[i].address && area.startAddress <= word
    ensures FindWord(tables, word, area.mdbFunction)
         == Some(area.base + 2 * (word - area.startAddress) + (cs.regs[i].address - area.base) % 2)
  {
    WordIsByte(area, first, cs, i, word);
    FindWordLeads(tables, word, area.mdbFunction, 0, t, i);
  }
}
