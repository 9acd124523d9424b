/**
  A small device that fulfils what the results ask for: one table with a bounded word, a
  version register and a byte.
 */
module Example {
  import opened Bits
  import opened Memory
  import opened Registers
  import opened Lookup
  import opened WriteLaws
  import opened Layout
  import opened Boot
  import opened SaveLaws

  function Word(lo: byte, hi: byte): Option<seq<byte>> {
    Some([lo, hi])
  }

  const FIELDS: seq<Field> := [
    Field(U16, 1, false, Word(5, 0), Word(1, 0), Word(9, 0), false, true, false, false),
    Field(U32, 1, false, Some([7, 0, 0, 0]), None, None, true, true, false, true),
    Field(U8, 1, false, None, None, None, false, false, false, false)]

  const AREA := Area(100, 40, 3, 3)
  const START := Counters(0, 0, 0, [])

  lemma ScaleOne(k: Kind)
    ensures Scale(1, k) == SizeInByte(k)
  {
    assert Scale(0, k) == 0;
  }

  /** `d` is the register of field `k`. */
  predicate IsField(d: Register, k: nat)
    requires k < 3
  {
    var f := FIELDS[k];
    d.kind == f.kind && d.size == 1 && d.minValue == f.minValue && d.maxValue == f.maxValue
    && d.defaultValue == f.defaultValue && d.isVersion == f.isVersion
  }

  const BYTES := [0, 2, 6, 7]
  const SAVED := [0, 2, 6, 6]

  /** The counters behind the first `n` fields. */
  predicate Behind(cs: Counters, n: nat)
    requires n <= 3
  {
    && cs.byteNumber == BYTES[n] && cs.savedAddress == SAVED[n] && cs.ind == n && |cs.regs| == n
    && forall k :: 0 <= k < n ==> IsField(cs.regs[k], k)
  }

  ghost predicate IsExample(cs: Counters) {
    Sound(AREA, 0, cs) && Behind(cs, 3)
  }

  lemma FieldsOk()
    ensures forall k :: 0 <= k < |FIELDS| ==> FieldOk(FIELDS[k])
  {
    forall k | 0 <= k < |FIELDS| ensures FieldOk(FIELDS[k]) {
      ScaleOne(FIELDS[k].kind);
    }
  }

  /** The entry of a field, and how far it moves the counters. */
  lemma FieldEntry(area: Area, cs: Counters, n: nat)
    requires n < 3 && Behind(cs, n)
    ensures IsField(Entry(area, cs, FIELDS[n], 1), n)
    ensures var bytes := Scale(1, FIELDS[n].kind);
            && BYTES[n + 1] == BYTES[n] + bytes
            && SAVED[n + 1] == if FIELDS[n].saving then SAVED[n] + bytes else SAVED[n]
  {
    ScaleOne(FIELDS[n].kind);
  }

  lemma FieldIsLaid(area: Area, cs: Counters, n: nat) returns (next: Counters)
    requires n < 3 && Laid(area, START, FIELDS, n) == Some(cs) && Behind(cs, n)
    ensures Laid(area, START, FIELDS, n + 1) == Some(next) && Behind(next, n + 1)
  {
    LaidSingle(area, START, FIELDS, n, cs);
    FieldEntry(area, cs, n);
    next := Placed(area, cs, FIELDS[n], 1);
  }

  /** The three registers, as the generator lays them out. */
  lemma ExampleIsLaidOut() returns (cs: Counters)
    ensures Laid(AREA, START, FIELDS, 3) == Some(cs) && IsExample(cs)
  {
    cs := FieldIsLaid(AREA, START, 0);
    cs := FieldIsLaid(AREA, cs, 1);
    cs := FieldIsLaid(AREA, cs, 2);
    FieldsOk();
    LaidSound(AREA, START, FIELDS, 3);
  }

  function DeviceOf(cs: Counters, crc32: seq<byte> -> Word4): Config {
    Config([Table(cs.regs, [7, 0, 0, 0], BufferSize(cs.savedAddress))], {}, 0, crc32)
  }

  lemma ExampleIsDevice(cs: Counters, crc32: seq<byte> -> Word4)
    requires IsExample(cs)
    ensures ConfigOk(DeviceOf(cs, crc32), 200)
  {
    LaidOutDevice(DeviceOf(cs, crc32), 200, [AREA], [0], [cs]);
  }

  lemma ExampleIsSearchable(cs: Counters)
    requires IsExample(cs)
    ensures GuidSorted(cs.regs) && WordSorted(cs.regs)
  {
    SoundGuids(AREA, 0, cs);
    WordsExactly(AREA, 0, cs);
    forall i | 0 <= i < |cs.regs| - 1 ensures !SharesWord(AREA, cs.regs[i]) {
      assert IsField(cs.regs[i], i);
      ScaleOne(cs.regs[i].kind);
    }
  }

  lemma ExampleIsVersioned(cs: Counters, crc32: seq<byte> -> Word4)
    requires IsExample(cs) && ConfigOk(DeviceOf(cs, crc32), 200)
    ensures VersionDefaulted(DeviceOf(cs, crc32), 200, 0)
  {
    assert IsField(cs.regs[0], 0) && IsField(cs.regs[1], 1) && IsField(cs.regs[2], 2);
    assert VersionIndex(cs.regs, 2) == 1 == VersionIndex(cs.regs, 3);
    SoundIsSorted(AREA, 0, cs);
  }

  lemma ExampleIsOrdered(cs: Counters, crc32: seq<byte> -> Word4)
    requires IsExample(cs) && ConfigOk(DeviceOf(cs, crc32), 200)
    ensures AllOrdered(DeviceOf(cs, crc32), 200)
  {
    SoundIsSorted(AREA, 0, cs);
    forall i | 0 <= i < 3 ensures cs.regs[i].Ok() && BoundsOrdered(cs.regs[i]) {
      assert IsField(cs.regs[i], i);
      BoundsOfWord(cs.regs[i], i);
    }
  }

  /** The bounds of the word are ordered; the other registers have none. */
  lemma BoundsOfWord(d: Register, i: nat)
    requires i < 3 && d.Ok() && d.kind == FIELDS[i].kind && d.size == 1
    requires d.minValue == FIELDS[i].minValue && d.maxValue == FIELDS[i].maxValue
    ensures BoundsOrdered(d)
  {
    if i == 0 {
      assert Element([1, 0], U16, 0) == [1, 0] && Element([9, 0], U16, 0) == [9, 0];
      assert Value([0]) == 0 && Value([1, 0]) == 1 && Value([9, 0]) == 9;
    }
  }

  /** The device fulfils what the results assume of tables, versions, searches and bounds. */
  lemma ExampleIsInOrder(crc32: seq<byte> -> Word4) returns (cs: Counters)
    ensures Laid(AREA, START, FIELDS, 3) == Some(cs)
    ensures ConfigOk(DeviceOf(cs, crc32), 200) && VersionDefaulted(DeviceOf(cs, crc32), 200, 0)
    ensures AllOrdered(DeviceOf(cs, crc32), 200) && GuidSorted(cs.regs) && WordSorted(cs.regs)
  {
    cs := ExampleIsLaidOut();
    ExampleIsDevice(cs, crc32);
    ExampleIsSearchable(cs);
    ExampleIsVersioned(cs, crc32);
    ExampleIsOrdered(cs, crc32);
  }
}
