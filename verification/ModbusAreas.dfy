/**
  The generator's check of Modbus addresses (generator/regs_handl.py:532-566): every start has to
  lie behind the last end, and the ends have to grow. What the generator takes for an end is the
  start, until a nested structure was declared.
 */
module ModbusAreas {
  import opened Bits
  import opened Memory
  import opened Registers
  import opened Lookup
  import opened Layout

  /** A mask of `n` ones keeps what fits into `n` digits. */
  lemma {:induction false} AndMask(x: nat, n: nat)
    requires x < Pow2(n)
    ensures And(x, Pow2(n) - 1) == x
  {
    if n > 0 && x > 0 {
      AndMask(x / 2, n - 1);
      AndHalf(x, Pow2(n) - 1);
      SameHalves(And(x, Pow2(n) - 1), x);
    }
  }

  /** A mask leaves no more than itself. */
  lemma {:induction false} AndAtMost(x: nat, m: nat)
    ensures And(x, m) <= m
  {
    if x > 0 && m > 0 {
      AndAtMost(x / 2, m / 2);
    }
  }

  lemma {:induction false} AndWidened(a: nat, x: nat, b: nat, y: nat, n: nat)
    ensures And(Widened(a, x, n), Widened(b, y, n)) == Widened(And(a, b), And(x, y), n)
  {
    if n > 0 {
      AndWidened(a, x / 2, b, y / 2, n - 1);
      AndHalf(x, y);
      AndHalf(Widened(a, x, n), Widened(b, y, n));
      SameHalves(And(Widened(a, x, n), Widened(b, y, n)), Widened(And(a, b), And(x, y), n));
    }
  }

  /** High and low digits are masked independently. */
  lemma AndSplit(a: nat, x: nat, b: nat, y: nat, n: nat)
    requires x < Pow2(n) && y < Pow2(n)
    ensures And(a * Pow2(n) + x, b * Pow2(n) + y) == And(a, b) * Pow2(n) + And(x, y)
  {
    WidenedIsSum(a, x, n);
    WidenedIsSum(b, y, n);
    AndWidened(a, x, b, y, n);
    AndAtMost(x, y);
    WidenedIsSum(And(a, b), And(x, y), n);
  }

  // -------------------------------------------------------------------------------- ends

  /**
    The end as the generator computes it: `description & 0xffff + words`, where `+` binds tighter
    than `&`. `bytes` is `size_value` times the size of the declared type.
   */
  function AreaLast(description: nat, bytes: nat): nat {
    And(description, 0xffff + bytes / 2)
  }

  lemma {:induction false} AndZero(x: nat)
    ensures And(x, 0) == 0
  {
  }

  lemma AndDigit(x: nat)
    ensures And(x, 1) == x % 2
  {
    AndZero(x / 2);
  }

  /** In digits: the start, or the lowest digit of the function and what a mask leaves of the start. */
  lemma AreaLastDigits(description: nat, bytes: nat)
    requires bytes <= 1000
    ensures AreaLast(description, bytes) ==
            if bytes < 2 then description % 65536
            else description / 65536 % 2 * 65536 + And(description % 65536, bytes / 2 - 1)
  {
    Pow2Of16();
    if bytes < 2 {
      AndSplit(description / 65536, description % 65536, 0, 65535, 16);
      AndZero(description / 65536);
      AndMask(description % 65536, 16);
    } else {
      AndSplit(description / 65536, description % 65536, 1, bytes / 2 - 1, 16);
      AndDigit(description / 65536);
    }
  }

  /** The mask that a nested structure, once declared, puts on the starts of registers of a kind. */
  function Mask(k: Kind): (m: nat)
    ensures 13 <= m <= 111
  {
    TASK_INFO_SIZE * SizeInByte(k) / 2 - 1
  }

  /** What the generator takes for the end of an entry; `nested` after a nested structure. */
  function AreaEnd(d: Register, nested: bool): nat {
    if nested then d.mdbFunction % 2 * 65536 + And(d.mdbAddress, Mask(d.kind)) else d.mdbAddress
  }

  /** The end of an entry is the one the generator computes from its description. */
  lemma EndOfDescription(d: Register, description: nat, sizeValue: nat)
    requires sizeValue == 0 || sizeValue == TASK_INFO_SIZE
    requires d.mdbFunction == description / 65536 % 16 && d.mdbAddress == description % 65536
    ensures AreaEnd(d, sizeValue != 0) == AreaLast(description, sizeValue * SizeInByte(d.kind))
  {
    AreaLastDigits(description, sizeValue * SizeInByte(d.kind));
    LastDigit(description / 65536);
  }

  lemma LastDigit(x: nat)
    ensures x % 16 % 2 == x % 2
  {
  }

  /** The entries from `from` on are, or come behind, nested structures. */
  predicate IsNested(from: Option<nat>, i: nat) {
    from.Some? && from.value <= i
  }

  /** The end before entry `i`, or `last` before the first one. */
  function EndBefore(last: int, regs: seq<Register>, from: Option<nat>, i: nat): int
    requires i <= |regs|
  {
    if i == 0 then last else AreaEnd(regs[i - 1], IsNested(from, i - 1))
  }

  /** What is asked of entry `i`. */
  predicate LinkOk(last: int, regs: seq<Register>, from: Option<nat>, i: nat)
    requires i < |regs|
  {
    && EndBefore(last, regs, from, i) < regs[i].mdbAddress
    && (i > 0 ==> EndBefore(last, regs, from, i) < AreaEnd(regs[i], IsNested(from, i)))
  }

  /** What is asked of an appended entry. */
  lemma EndBeforeAppend(last: int, regs: seq<Register>, from: Option<nat>, d: Register)
    ensures LinkOk(last, regs + [d], from, |regs|) <==>
            var end := EndBefore(last, regs, from, |regs|);
            end < d.mdbAddress && (regs != [] ==> end < AreaEnd(d, IsNested(from, |regs|)))
  {
    assert EndBefore(last, regs + [d], from, |regs|) == EndBefore(last, regs, from, |regs|);
  }

  /** Every entry passes the check. */
  predicate Chained(last: int, regs: seq<Register>, from: Option<nat>) {
    forall i :: 0 <= i < |regs| ==> LinkOk(last, regs, from, i)
  }

  /** One entry more. */
  lemma ChainedAppend(last: int, regs: seq<Register>, from: Option<nat>, d: Register)
    ensures Chained(last, regs + [d], from) <==> Chained(last, regs, from) && LinkOk(last, regs + [d], from, |regs|)
  {
    var more := regs + [d];
    forall i | 0 <= i < |regs| ensures LinkOk(last, more, from, i) <==> LinkOk(last, regs, from, i) {
      assert more[i] == regs[i] && (i > 0 ==> more[i - 1] == regs[i - 1]);
    }
    if Chained(last, more, from) {
      forall i | 0 <= i < |regs| ensures LinkOk(last, regs, from, i) {
        assert LinkOk(last, more, from, i);
      }
    }
  }

  /** Rejected entries stay rejected; nested structures further on do not matter to them. */
  lemma ChainedPrefix(last: int, regs: seq<Register>, more: seq<Register>, from: Option<nat>, later: Option<nat>)
    requires regs <= more && Chained(last, more, later)
    requires forall i :: 0 <= i < |regs| ==> (IsNested(from, i) <==> IsNested(later, i))
    ensures Chained(last, regs, from)
  {
    forall i | 0 <= i < |regs| ensures LinkOk(last, regs, from, i) {
      assert LinkOk(last, more, later, i);
      assert i > 0 ==> (IsNested(from, i - 1) <==> IsNested(later, i - 1));
    }
  }

  // ------------------------------------------------------------------- what the check means

  /** The start before entry `i`, or `last` for the first one. */
  function StartBefore(last: int, regs: seq<Register>, i: nat): int
    requires i <= |regs|
  {
    if i == 0 then last else regs[i - 1].mdbAddress
  }

  /** Every start lies behind the one before, the first behind `last`. */
  predicate StartsIncrease(last: int, regs: seq<Register>) {
    forall i :: 0 <= i < |regs| ==> StartBefore(last, regs, i) < regs[i].mdbAddress
  }

  /** Without nested structures the check asks that starts increase. */
  lemma ChainedWithoutNested(last: int, regs: seq<Register>)
    ensures Chained(last, regs, None) <==> StartsIncrease(last, regs)
  {
    forall i | 0 <= i < |regs|
      ensures LinkOk(last, regs, None, i) <==> StartBefore(last, regs, i) < regs[i].mdbAddress
    {
    }
    if Chained(last, regs, None) {
      forall i | 0 <= i < |regs| ensures StartBefore(last, regs, i) < regs[i].mdbAddress {
        assert LinkOk(last, regs, None, i);
      }
    }
  }

  /**
    In coils and holding registers (functions 1 and 3) the entry of a nested structure must be the
    last one: nothing, not even its second element, is accepted behind it.
   */
  lemma OddNestedIsLast(last: int, regs: seq<Register>, from: nat)
    requires from < |regs| && regs[from].mdbFunction % 2 == 1
    requires forall i :: 0 <= i < |regs| ==> regs[i].mdbAddress < 65536
    ensures Chained(last, regs, Some(from)) <==> StartsIncrease(last, regs) && |regs| == from + 1
  {
    forall i | 0 <= i <= from
      ensures LinkOk(last, regs, Some(from), i) <==> StartBefore(last, regs, i) < regs[i].mdbAddress
    {
    }
    if Chained(last, regs, Some(from)) {
      assert from + 1 < |regs| ==> !LinkOk(last, regs, Some(from), from + 1);
      forall i | 0 <= i < |regs| ensures StartBefore(last, regs, i) < regs[i].mdbAddress {
        assert LinkOk(last, regs, Some(from), i);
      }
    }
  }

  /**
    In input registers (functions 2 and 4) the ends behind a nested structure are what its mask
    leaves of the starts, at most 111: a register before it must start below that, and only so
    many entries can follow.
   */
  lemma {:induction false} EvenNestedEnds(last: int, regs: seq<Register>, from: nat, n: nat)
    requires from < n <= |regs| && forall i :: from <= i < |regs| ==> regs[i].mdbFunction % 2 == 0
    requires Chained(last, regs, Some(from))
    ensures n - 1 - from <= AreaEnd(regs[n - 1], true) <= Mask(regs[n - 1].kind)
    ensures from > 0 ==> regs[from - 1].mdbAddress < Mask(regs[from].kind)
    decreases n
  {
    AndAtMost(regs[n - 1].mdbAddress, Mask(regs[n - 1].kind));
    assert LinkOk(last, regs, Some(from), n - 1);
    if n - 1 > from {
      EvenNestedEnds(last, regs, from, n - 1);
    }
  }

  /** So where no address is below the mask it is the first entry, and at most 112 entries are accepted. */
  lemma EvenNestedIsFirst(last: int, regs: seq<Register>, from: nat)
    requires from < |regs| && forall i :: from <= i < |regs| ==> regs[i].mdbFunction % 2 == 0
    requires Chained(last, regs, Some(from))
    requires forall i :: 0 <= i < |regs| ==> regs[i].mdbAddress >= Mask(regs[from].kind)
    ensures from == 0 && |regs| <= 112
  {
    EvenNestedEnds(last, regs, from, |regs|);
    EvenNestedEnds(last, regs, from, from + 1);
  }

  lemma StartsMeanNoSharing(area: Area, first: nat, cs: Counters)
    requires Sound(area, first, cs) && AreaOk(area) && WordsFit(area, cs)
    ensures StartsIncrease(-1, cs.regs) <==> forall i :: 0 <= i < |cs.regs| - 1 ==> !SharesWord(area, cs.regs[i])
  {
    forall i | 0 < i < |cs.regs|
      ensures StartBefore(-1, cs.regs, i) < cs.regs[i].mdbAddress <==> !SharesWord(area, cs.regs[i - 1])
    {
      NextWord(area, first, cs, i - 1);
    }
    if StartsIncrease(-1, cs.regs) {
      forall i | 0 <= i < |cs.regs| - 1 ensures !SharesWord(area, cs.regs[i]) {
        assert StartBefore(-1, cs.regs, i + 1) < cs.regs[i + 1].mdbAddress;
      }
    }
  }

  /** What the check accepts without nested structures is what the search by Modbus address needs. */
  lemma CheckMeansWordsSorted(area: Area, first: nat, cs: Counters)
    requires Sound(area, first, cs) && AreaOk(area) && WordsFit(area, cs)
    ensures Chained(-1, cs.regs, None) <==> WordSorted(cs.regs)
  {
    ChainedWithoutNested(-1, cs.regs);
    StartsMeanNoSharing(area, first, cs);
    WordsExactly(area, first, cs);
  }

  /** A field of one value that is neither saved nor bounded. */
  function Simple(kind: Kind, isStruct: bool): Field {
    Field(kind, 1, isStruct, None, None, None, false, false, false, false)
  }

  const COLLIDING: seq<Field> := [Simple(U8, true), Simple(U8, false), Simple(U64, false)]
  const NO_ENTRIES := Counters(0, 0, 0, [])

  /** Input registers from address 1 on. */
  predicate FromOne(area: Area) {
    area.startAddress == 1 && area.mdbFunction == 4
  }

  lemma CollidingMasks()
    ensures And(1, Mask(U8)) == 1 && And(15, Mask(U8)) == 13 && And(15, Mask(U64)) == 15
  {
    assert Mask(U8) == 13 && Mask(U64) == 111;
    assert And(1, 13) == 1;
    assert And(15, 13) == 13;
    assert And(15, 111) == 15;
  }

  const COLLIDING_STARTS := [1, 15, 15]
  const COLLIDING_BYTES := [0, 28, 29, 37]

  /** The first `n` of three entries, the last two of which collide in word 15. */
  predicate Colliding(regs: seq<Register>, n: nat)
    requires n <= 3
  {
    && |regs| == n
    && forall k :: 0 <= k < n ==>
         regs[k].mdbAddress == COLLIDING_STARTS[k] && regs[k].mdbFunction == 4 && regs[k].kind == COLLIDING[k].kind
  }

  lemma CollidingEnds(regs: seq<Register>)
    requires Colliding(regs, 3)
    ensures AreaEnd(regs[0], true) == 1 && AreaEnd(regs[1], true) == 13 && AreaEnd(regs[2], true) == 15
  {
    CollidingMasks();
  }

  /** The entry that `n` earlier ones are followed by. */
  lemma CollidingEntry(area: Area, cs: Counters, n: nat)
    requires FromOne(area) && n < 3 && cs.byteNumber == COLLIDING_BYTES[n]
    ensures var d := Entry(area, cs, COLLIDING[n], PieceSize(COLLIDING[n]));
            d.mdbAddress == COLLIDING_STARTS[n] && d.mdbFunction == 4 && d.kind == COLLIDING[n].kind
    ensures cs.byteNumber + Scale(PieceSize(COLLIDING[n]), COLLIDING[n].kind) == COLLIDING_BYTES[n + 1]
  {
    ScaleIsProduct(PieceSize(COLLIDING[n]), COLLIDING[n].kind);
  }

  lemma CollidingNext(area: Area, cs: Counters, n: nat) returns (next: Counters)
    requires FromOne(area) && n < 3 && Laid(area, NO_ENTRIES, COLLIDING, n) == Some(cs)
    requires Colliding(cs.regs, n) && cs.byteNumber == COLLIDING_BYTES[n]
    ensures Laid(area, NO_ENTRIES, COLLIDING, n + 1) == Some(next)
    ensures Colliding(next.regs, n + 1) && next.byteNumber == COLLIDING_BYTES[n + 1]
  {
    LaidSingle(area, NO_ENTRIES, COLLIDING, n, cs);
    CollidingEntry(area, cs, n);
    next := Placed(area, cs, COLLIDING[n], PieceSize(COLLIDING[n]));
  }

  lemma CollidingIsLaid(area: Area) returns (cs: Counters)
    requires FromOne(area)
    ensures Laid(area, NO_ENTRIES, COLLIDING, 3) == Some(cs) && Colliding(cs.regs, 3)
  {
    cs := NO_ENTRIES;
    cs := CollidingNext(area, cs, 0);
    cs := CollidingNext(area, cs, 1);
    cs := CollidingNext(area, cs, 2);
  }

  /**
    Behind a nested structure the check no longer means that words are sorted: in input registers
    from 1 on, a nested structure, a byte and a long word that starts in the byte's word pass.
   */
  lemma CollisionAccepted(area: Area) returns (cs: Counters)
    requires FromOne(area)
    ensures Laid(area, NO_ENTRIES, COLLIDING, 3) == Some(cs)
    ensures Chained(-1, cs.regs, Some(0)) && !WordSorted(cs.regs)
  {
    cs := CollidingIsLaid(area);
    CollidingEnds(cs.regs);
    assert !(cs.regs[1].mdbAddress < cs.regs[2].mdbAddress);
  }
}
