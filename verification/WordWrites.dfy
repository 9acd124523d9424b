/**
  A word written in one access, as Modbus function 6 does it (main/modbus.c:309-338 and
  main/regs_description.c:578-602): when both its bytes reach memory, for elements of every size
  and whatever is pending.
 */
module WordWrites {
  import opened Bits
  import opened Memory
  import opened PendingBuffer

  /** Both bytes of the word lie in memory at `a`. */
  predicate Landed(m: seq<byte>, a: nat, lo: byte, hi: byte) {
    a + 1 < |m| && m[a] == lo && m[a + 1] == hi
  }

  /** The pending buffer as an access with a word at `a` fills it. */
  function Filled(spot: Spot, p: Pending, a: nat, lo: byte, hi: byte): Pending
    requires Around(spot, a)
  {
    Fill(spot, p, a, [lo, hi])
  }

  /** The word fits into what is left of its element, and completes the element with what is pending. */
  predicate Completes(spot: Spot, p: Pending, a: nat)
    requires Around(spot, a)
  {
    a + 2 <= spot.start + spot.item && Full(Filled(spot, p, a, 0, 0).cells, spot.item)
  }

  /** What the cells of the filled buffer hold: the bytes of the word that fit, and what was there. */
  lemma FilledAt(spot: Spot, p: Pending, a: nat, lo: byte, hi: byte, k: nat)
    requires Around(spot, a) && k < 8
    ensures Filled(spot, p, a, lo, hi).cells[k] ==
            if spot.start + k == a then Some(lo)
            else if spot.start + k == a + 1 && a + 1 < spot.start + spot.item then Some(hi)
            else Aimed(p, spot.start).cells[k]
  {
    var n := if 2 > spot.start + spot.item - a then spot.start + spot.item - a else 2;
    assert [lo, hi][..n] == if n == 2 then [lo, hi] else [lo];
    PokeAt(Aimed(p, spot.start).cells, a - spot.start, [lo, hi][..n], k);
  }

  /** Whether the element is complete does not depend on the word. */
  lemma FullForAnyWord(spot: Spot, p: Pending, a: nat, lo: byte, hi: byte)
    requires Around(spot, a)
    ensures Full(Filled(spot, p, a, lo, hi).cells, spot.item) <==> Full(Filled(spot, p, a, 0, 0).cells, spot.item)
  {
    forall k | 0 <= k < 8
      ensures Filled(spot, p, a, lo, hi).cells[k].Some? <==> Filled(spot, p, a, 0, 0).cells[k].Some?
    {
      FilledAt(spot, p, a, lo, hi, k);
      FilledAt(spot, p, a, 0, 0, k);
    }
  }

  /** The element takes whatever is written to it. */
  ghost predicate TakesAll(takes: (nat, seq<byte>) -> bool, spot: Spot) {
    forall bytes: seq<byte> :: |bytes| == spot.item ==> takes(spot.start, bytes)
  }

  /** An access in an element that is stored as it is: it completes the element or waits. */
  lemma AccessStoresOrWaits<S(!new)>(eng: Engine<S>, ok: S -> bool, view: S -> seq<byte>,
                                     takes: (nat, seq<byte>) -> bool, checked: (nat, seq<byte>) -> seq<byte>,
                                     s: S, p: Pending, spot: Spot, a: nat, data: seq<byte>)
    requires Coherent(eng) && Stores(eng, ok, view, takes, checked) && KeepsBytes(eng, takes, checked)
    requires ok(s) && TakesAll(takes, spot) && Locate(eng, a) == Some(spot) && eng.allowed(s, spot.start)
    ensures var filled, r := Fill(spot, p, a, data), Access(eng, s, p, a, data);
            if Full(filled.cells, spot.item) then
              && spot.start + spot.item <= |view(s)|
              && r.code == 1 && r.pending == CLEARED && ok(r.state)
              && view(r.state) == Splice(view(s), spot.start, Collected(filled.cells, spot.item))
            else r == Outcome(s, filled, 1)
  {
    SameElement(eng, a, spot.start);
    var filled := Fill(spot, p, a, data);
    if Full(filled.cells, spot.item) {
      var bytes := Collected(filled.cells, spot.item);
      assert checked(spot.start, bytes) == bytes;
      assert eng.commit(s, spot.start, bytes).1 == 1;
    }
  }

  /** Two bytes from `a` on after `bytes` were spliced in around `a`. */
  lemma PairAfterSplice(m: seq<byte>, start: nat, bytes: seq<byte>, a: nat)
    requires start <= a < start + |bytes| <= |m| && a + 2 <= |m|
    ensures var after := Splice(m, start, bytes);
            && after[a] == bytes[a - start]
            && after[a + 1] == if a + 1 < start + |bytes| then bytes[a + 1 - start] else m[a + 1]
  {
    SpliceAt(m, start, bytes, a);
    SpliceAt(m, start, bytes, a + 1);
  }

  /** The bytes at the word's place after an access that completes the element. */
  lemma StoredWord(m: seq<byte>, spot: Spot, p: Pending, a: nat, lo: byte, hi: byte)
    requires Around(spot, a) && a + 2 <= |m| && spot.start + spot.item <= |m|
    requires Full(Filled(spot, p, a, lo, hi).cells, spot.item)
    ensures var after := Splice(m, spot.start, Collected(Filled(spot, p, a, lo, hi).cells, spot.item));
            && after[a] == lo
            && after[a + 1] == if a + 1 < spot.start + spot.item then hi else m[a + 1]
  {
    var cells := Filled(spot, p, a, lo, hi).cells;
    PairAfterSplice(m, spot.start, Collected(cells, spot.item), a);
    CollectedAt(cells, spot.item, a - spot.start);
    FilledAt(spot, p, a, lo, hi, a - spot.start);
    if a + 1 < spot.start + spot.item {
      CollectedAt(cells, spot.item, a + 1 - spot.start);
      FilledAt(spot, p, a, lo, hi, a + 1 - spot.start);
    }
  }

  /**
    What one word does: it waits when the element is not complete, and then memory is as it was;
    otherwise its low byte is stored, and its high byte unless it lies behind the element.
   */
  lemma WordWritten<S(!new)>(eng: Engine<S>, ok: S -> bool, view: S -> seq<byte>, takes: (nat, seq<byte>) -> bool,
                             checked: (nat, seq<byte>) -> seq<byte>, s: S, p: Pending, spot: Spot, a: nat,
                             lo: byte, hi: byte)
    requires Coherent(eng) && Stores(eng, ok, view, takes, checked) && KeepsBytes(eng, takes, checked)
    requires ok(s) && TakesAll(takes, spot) && Locate(eng, a) == Some(spot) && eng.allowed(s, spot.start)
    requires a + 2 <= |view(s)|
    ensures var r := Access(eng, s, p, a, [lo, hi]);
            && r.code == 1 && |view(r.state)| == |view(s)|
            && if Full(Filled(spot, p, a, 0, 0).cells, spot.item) then
                 && view(r.state)[a] == lo
                 && view(r.state)[a + 1] == if a + 1 < spot.start + spot.item then hi else view(s)[a + 1]
               else view(r.state) == view(s)
  {
    AccessStoresOrWaits(eng, ok, view, takes, checked, s, p, spot, a, [lo, hi]);
    FullForAnyWord(spot, p, a, lo, hi);
    if Full(Filled(spot, p, a, lo, hi).cells, spot.item) {
      StoredWord(view(s), spot, p, a, lo, hi);
    }
  }

  /** Every word written at `a` is in memory afterwards exactly when words complete their element there. */
  lemma WordsLandExactly<S(!new)>(eng: Engine<S>, ok: S -> bool, view: S -> seq<byte>, takes: (nat, seq<byte>) -> bool,
                                  checked: (nat, seq<byte>) -> seq<byte>, s: S, p: Pending, spot: Spot, a: nat)
    requires Coherent(eng) && Stores(eng, ok, view, takes, checked) && KeepsBytes(eng, takes, checked)
    requires ok(s) && TakesAll(takes, spot) && Locate(eng, a) == Some(spot) && eng.allowed(s, spot.start)
    requires a + 2 <= |view(s)|
    ensures (forall lo: byte, hi: byte :: Landed(view(Access(eng, s, p, a, [lo, hi]).state), a, lo, hi))
       <==> Completes(spot, p, a)
  {
    forall lo: byte, hi: byte
      ensures Completes(spot, p, a) ==> Landed(view(Access(eng, s, p, a, [lo, hi]).state), a, lo, hi)
    {
      WordWritten(eng, ok, view, takes, checked, s, p, spot, a, lo, hi);
    }
    var lo, hi := Other(view(s)[a]), Other(view(s)[a + 1]);
    WordWritten(eng, ok, view, takes, checked, s, p, spot, a, lo, hi);
    assert !Completes(spot, p, a) ==> !Landed(view(Access(eng, s, p, a, [lo, hi]).state), a, lo, hi);
  }

  /** A byte that is not `b`. */
  function Other(b: byte): (r: byte)
    ensures r != b
  {
    if b == 0 then 1 else 0
  }
}
