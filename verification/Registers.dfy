/**
  Register descriptions (main/regs_description.h) and what the rest of the firmware relies
  on them to be: the address ranges and the saved slots of a device never overlap.
 */
module Registers {
  import opened Bits
  import opened Memory

  /** The register types of main/regs.h. */
  datatype Kind = U8 | I8 | U16 | S16 | U32 | S32 | Int32 | Time | U64 | S64 | Float | Double

  /** `regs_size_in_byte` */
  function SizeInByte(k: Kind): (n: nat)
    ensures 1 <= n <= 8
  {
    match k
    case U8 | I8 => 1
    case U16 | S16 => 2
    case U32 | S32 | Int32 | Time | Float => 4
    case U64 | S64 | Double => 8
  }

  /** `n` elements of kind `k`, in bytes. */
  function Scale(n: nat, k: Kind): (r: nat)
    ensures r >= n && (r == 0 <==> n == 0)
  {
    if n == 0 then 0 else SizeInByte(k) + Scale(n - 1, k)
  }

  /** The element that holds byte `n` of an array of kind `k`. */
  function Quotient(n: nat, k: Kind): nat {
    if n < SizeInByte(k) then 0 else 1 + Quotient(n - SizeInByte(k), k)
  }

  /** The position of byte `n` inside its element. */
  function Remainder(n: nat, k: Kind): (r: nat)
    ensures r < SizeInByte(k) && r <= n
  {
    if n < SizeInByte(k) then n else Remainder(n - SizeInByte(k), k)
  }

  lemma {:induction false} DivisionLaw(n: nat, k: Kind)
    ensures n == Scale(Quotient(n, k), k) + Remainder(n, k)
  {
    if n >= SizeInByte(k) {
      DivisionLaw(n - SizeInByte(k), k);
    }
  }

  lemma {:induction false} DivisionIsUnique(q: nat, r: nat, k: Kind)
    requires r < SizeInByte(k)
    ensures Quotient(Scale(q, k) + r, k) == q
    ensures Remainder(Scale(q, k) + r, k) == r
  {
    if q > 0 {
      DivisionIsUnique(q - 1, r, k);
    }
  }

  /** These are the division and the multiplication of the C code. */
  lemma {:induction false} ScaleIsProduct(n: nat, k: Kind)
    ensures Scale(n, k) == n * SizeInByte(k)
  {
    if n > 0 {
      ScaleIsProduct(n - 1, k);
    }
  }

  /** Element `q` lies inside an array of `n` elements. */
  lemma {:induction false} ScaleMonotone(q: nat, n: nat, k: Kind)
    ensures q < n ==> Scale(q, k) + SizeInByte(k) <= Scale(n, k)
    ensures q >= n ==> Scale(q, k) >= Scale(n, k)
  {
    if q > 0 && n > 0 {
      ScaleMonotone(q - 1, n - 1, k);
    }
  }

  predicate IsSigned(k: Kind) {
    k == I8 || k == S16 || k == S32 || k == Int32 || k == S64
  }

  predicate IsReal(k: Kind) {
    k == Float || k == Double
  }

  /** The number of bit patterns of a kind. */
  function Patterns(k: Kind): (n: nat)
    ensures n % 2 == 0 && n > 0
  {
    assert Pow256(SizeInByte(k)) == 256 * Pow256(SizeInByte(k) - 1);
    Pow256(SizeInByte(k))
  }

  /** The value range of an integer kind. */
  predicate InKind(k: Kind, v: int) {
    if IsSigned(k) then -(Patterns(k) / 2) <= v < Patterns(k) / 2 else 0 <= v < Patterns(k)
  }

  /** The value of an element: little endian, two's complement for the signed kinds. */
  function Decode(k: Kind, s: seq<byte>): (v: int)
    requires |s| == SizeInByte(k)
    ensures InKind(k, v)
  {
    ValueBound(s);
    if IsSigned(k) && Value(s) >= Patterns(k) / 2 then Value(s) - Patterns(k) else Value(s)
  }

  function Encode(k: Kind, v: int): (s: seq<byte>)
    requires InKind(k, v)
    ensures |s| == SizeInByte(k)
  {
    Encoded(if v < 0 then v + Patterns(k) else v, SizeInByte(k))
  }

  lemma DecodeEncode(k: Kind, v: int)
    requires InKind(k, v)
    ensures Decode(k, Encode(k, v)) == v
  {
    ValueEncoded(if v < 0 then v + Patterns(k) else v, SizeInByte(k));
  }

  lemma EncodeDecode(k: Kind, s: seq<byte>)
    requires |s| == SizeInByte(k)
    ensures Encode(k, Decode(k, s)) == s
  {
    EncodedValue(s);
    ValueBound(s);
  }

  /**
    One `regs_description_t`. `address` stands for `p_value`; a description without a
    default, minimum or maximum has the NULL pointer there, which is None here.
   */
  datatype Register = Register(
    kind: Kind,
    size: nat,
    address: nat,
    savedAddress: nat,
    guid: nat,
    mdbFunction: nat,
    mdbAddress: nat,
    defaultValue: Option<seq<byte>>,
    minValue: Option<seq<byte>>,
    maxValue: Option<seq<byte>>,
    readOnly: bool,
    saving: bool,
    credential: bool,
    isVersion: bool)
  {
    function Item(): nat {
      SizeInByte(kind)
    }

    function Bytes(): nat {
      Scale(size, kind)
    }

    function End(): nat {
      address + Bytes()
    }

    predicate Holds(a: nat) {
      address <= a < End()
    }

    /** The value a reset gives the register: its default, or zeros. */
    function Default(): (s: seq<byte>)
      requires Ok()
      ensures |s| == Bytes()
    {
      if defaultValue.Some? then defaultValue.value else Zeros(Bytes())
    }

    /** A bound is an array of the register's own shape; real registers have none here. */
    predicate BoundsOk(bounds: Option<seq<byte>>) {
      bounds.Some? ==> !IsReal(kind) && |bounds.value| == Bytes()
    }

    predicate Ok() {
      && size > 0 && address > 0
      && (defaultValue.Some? ==> |defaultValue.value| == Bytes())
      && BoundsOk(minValue) && BoundsOk(maxValue)
      && (isVersion ==> Bytes() == 4)
    }
  }

  /** Element `index` of an array of kind `k`. */
  function Element(s: seq<byte>, k: Kind, index: nat): (e: seq<byte>)
    requires Scale(index, k) + SizeInByte(k) <= |s|
    ensures |e| == SizeInByte(k)
  {
    Slice(s, Scale(index, k), SizeInByte(k))
  }

  /**
    One `regs_description_list_t`. `version` holds the four bytes of the current table
    version.
   */
  datatype Table = Table(regs: seq<Register>, version: seq<byte>, bufferSize: nat)

  /** Registers lie in address order and never overlap. */
  predicate AddressSorted(regs: seq<Register>) {
    && (forall i :: 0 <= i < |regs| ==> regs[i].size > 0)
    && forall i, j :: 0 <= i < j < |regs| ==> regs[i].End() <= regs[j].address
  }

  /** The slots of the saved registers are disjoint and end before the stored checksum. */
  predicate SlotsOk(regs: seq<Register>, bufferSize: nat) {
    && bufferSize >= 4
    && (forall i :: 0 <= i < |regs| && regs[i].saving ==>
          regs[i].savedAddress + regs[i].Bytes() <= bufferSize - 4)
    && forall i, j :: 0 <= i < j < |regs| && regs[i].saving && regs[j].saving ==>
         Disjoint(regs[i].savedAddress, regs[i].Bytes(), regs[j].savedAddress, regs[j].Bytes())
  }

  predicate TableOk(t: Table) {
    && AddressSorted(t.regs)
    && SlotsOk(t.regs, t.bufferSize)
    && |t.version| == 4
    && forall i :: 0 <= i < |t.regs| ==> t.regs[i].Ok()
  }

  /** Registers of different tables live in different storage. */
  predicate TablesApart(tables: seq<Table>) {
    forall t, u, i, j ::
      0 <= t < u < |tables| && 0 <= i < |tables[t].regs| && 0 <= j < |tables[u].regs| ==>
        Disjoint(tables[t].regs[i].address, tables[t].regs[i].Bytes(),
                 tables[u].regs[j].address, tables[u].regs[j].Bytes())
  }

  /**
    The constants of a device: its tables, the four text registers of regs.c:339-342, the
    address of the command register, and the CRC-32 of the chip's ROM as an arbitrary
    function to four bytes.
   */
  datatype Config = Config(
    tables: seq<Table>,
    textAddresses: set<nat>,
    commandAddress: nat,
    crc32: seq<byte> -> Word4)

  type Word4 = s: seq<byte> | |s| == 4 witness [0, 0, 0, 0]

  predicate ConfigOk(cfg: Config, memSize: nat) {
    && (forall t :: 0 <= t < |cfg.tables| ==> TableOk(cfg.tables[t]))
    && TablesApart(cfg.tables)
    && (forall t, i :: 0 <= t < |cfg.tables| && 0 <= i < |cfg.tables[t].regs| ==>
          cfg.tables[t].regs[i].End() <= memSize)
    && cfg.commandAddress + 2 <= memSize
  }
}
