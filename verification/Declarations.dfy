/**
  The tables that come out of the generator, against the declarations that went in
  (generator/regs_handl.py:157-180 and 440-525): which entries there are, in which order, what each
  of them says, and where it lies.
 */
module Declarations {
  import opened Registers
  import opened Lookup
  import opened Kinds
  import opened Layout

  /** A part of a structure that gets an entry of its own. */
  datatype Piece = Piece(field: Field, size: nat)

  /** A nested structure is a piece of 28 values for each of its elements. */
  function PiecesOf(f: Field): seq<Piece> {
    if f.size == 0 then []
    else if f.isStruct then seq(f.size, _ => Piece(f, 28))
    else [Piece(f, f.size)]
  }

  /** The pieces that a list of declarations asks for. */
  function Pieces(fields: seq<Field>): seq<Piece> {
    if fields == [] then [] else Pieces(fields[..|fields| - 1]) + PiecesOf(fields[|fields| - 1])
  }

  /** `d` says of its values what their declaration says. */
  predicate Declares(d: Register, p: Piece) {
    && d.kind == p.field.kind
    && d.size == p.size
    && d.defaultValue == p.field.defaultValue
    && d.minValue == p.field.minValue
    && d.maxValue == p.field.maxValue
    && d.readOnly == p.field.readOnly
    && d.saving == p.field.saving
    && d.credential == p.field.credential
    && d.isVersion == p.field.isVersion
  }

  function Room(p: Piece): nat {
    p.size * Width(p.field.kind)
  }

  /** The bytes of the first `n` pieces. */
  function BytesBefore(ps: seq<Piece>, n: nat): nat
    requires n <= |ps|
  {
    if n == 0 then 0 else BytesBefore(ps, n - 1) + Room(ps[n - 1])
  }

  /** The saved ones among them. */
  function SavedBefore(ps: seq<Piece>, n: nat): nat
    requires n <= |ps|
  {
    if n == 0 then 0 else SavedBefore(ps, n - 1) + if ps[n - 1].field.saving then Room(ps[n - 1]) else 0
  }

  /** `d` is the entry of piece `k`, at its place behind the pieces before it. */
  predicate PieceEntry(area: Area, start: Counters, ps: seq<Piece>, k: nat, d: Register)
    requires k < |ps|
  {
    var offset := start.byteNumber + BytesBefore(ps, k);
    && Declares(d, ps[k])
    && d.address == area.base + offset
    && d.savedAddress == (if d.saving then start.savedAddress + SavedBefore(ps, k) else 0)
    && d.guid == ComputeGuid(area.addressSpace, area.mdbFunction, start.ind + k)
    && (area.startAddress + offset / 2 < 65536 && area.mdbFunction < 16 ==>
          d.mdbFunction == area.mdbFunction && d.mdbAddress == area.startAddress + offset / 2)
  }

  /** Behind what was there at the start lies one entry for each piece, in the order of the pieces. */
  predicate MadeOf(area: Area, start: Counters, cs: Counters, ps: seq<Piece>) {
    var n := |start.regs|;
    && |cs.regs| == n + |ps| && cs.regs[..n] == start.regs
    && cs.ind == start.ind + |ps|
    && cs.byteNumber == start.byteNumber + BytesBefore(ps, |ps|)
    && cs.savedAddress == start.savedAddress + SavedBefore(ps, |ps|)
    && forall k :: 0 <= k < |ps| ==> PieceEntry(area, start, ps, k, cs.regs[n..][k])
  }

  lemma EntryDeclares(area: Area, cs: Counters, f: Field, size: nat)
    ensures Declares(Entry(area, cs, f, size), Piece(f, size))
  {
  }

  lemma {:induction false} BeforeExtended(ps: seq<Piece>, qs: seq<Piece>, n: nat)
    requires n <= |ps| <= |qs| && qs[..|ps|] == ps
    ensures BytesBefore(qs, n) == BytesBefore(ps, n) && SavedBefore(qs, n) == SavedBefore(ps, n)
  {
    if n > 0 {
      BeforeExtended(ps, qs, n - 1);
      assert qs[..|ps|][n - 1] == ps[n - 1];
    }
  }

  lemma DescriptionParts(area: Area, offset: nat)
    requires area.startAddress + offset / 2 < 65536 && area.mdbFunction < 16
    ensures Description(area, offset) / 65536 % 16 == area.mdbFunction
    ensures Description(area, offset) % 65536 == area.startAddress + offset / 2
  {
  }

  lemma PlacedEntry(area: Area, start: Counters, cs: Counters, ps: seq<Piece>, qs: seq<Piece>, f: Field, size: nat)
    requires MadeOf(area, start, cs, ps) && qs == ps + [Piece(f, size)]
    ensures PieceEntry(area, start, qs, |ps|, Entry(area, cs, f, size))
  {
    EntryDeclares(area, cs, f, size);
    BeforeExtended(ps, qs, |ps|);
    if area.startAddress + cs.byteNumber / 2 < 65536 && area.mdbFunction < 16 {
      DescriptionParts(area, cs.byteNumber);
    }
  }

  lemma EntryKept(area: Area, start: Counters, cs: Counters, ps: seq<Piece>, qs: seq<Piece>, k: nat)
    requires MadeOf(area, start, cs, ps) && k < |ps| <= |qs| && qs[..|ps|] == ps
    ensures PieceEntry(area, start, qs, k, cs.regs[|start.regs|..][k])
  {
    BeforeExtended(ps, qs, k);
    assert qs[..|ps|][k] == ps[k];
    assert PieceEntry(area, start, ps, k, cs.regs[|start.regs|..][k]);
  }

  lemma PlacedCounts(area: Area, start: Counters, cs: Counters, ps: seq<Piece>, qs: seq<Piece>, f: Field, size: nat)
    requires MadeOf(area, start, cs, ps) && qs == ps + [Piece(f, size)]
    ensures var r, n := Placed(area, cs, f, size), |start.regs|;
            && |r.regs| == n + |qs| && r.regs[..n] == start.regs
            && r.regs[n..] == cs.regs[n..] + [Entry(area, cs, f, size)]
            && r.ind == start.ind + |qs|
            && r.byteNumber == start.byteNumber + BytesBefore(qs, |qs|)
            && r.savedAddress == start.savedAddress + SavedBefore(qs, |qs|)
  {
    WidthIsSize(f.kind, size);
    BeforeExtended(ps, qs, |ps|);
    assert Room(qs[|ps|]) == Scale(size, f.kind);
    AppendedBehind(cs.regs, Entry(area, cs, f, size), |start.regs|);
  }

  lemma AppendedBehind(regs: seq<Register>, d: Register, n: nat)
    requires n <= |regs|
    ensures (regs + [d])[..n] == regs[..n] && (regs + [d])[n..] == regs[n..] + [d]
  {
  }

  /** One entry more, one piece more. */
  lemma PlacedMakes(area: Area, start: Counters, cs: Counters, ps: seq<Piece>, qs: seq<Piece>, f: Field, size: nat)
    requires MadeOf(area, start, cs, ps) && qs == ps + [Piece(f, size)]
    ensures MadeOf(area, start, Placed(area, cs, f, size), qs)
  {
    var made := cs.regs[|start.regs|..] + [Entry(area, cs, f, size)];
    PlacedCounts(area, start, cs, ps, qs, f, size);
    forall k | 0 <= k < |qs| ensures PieceEntry(area, start, qs, k, made[k]) {
      if k < |ps| {
        EntryKept(area, start, cs, ps, qs, k);
      } else {
        PlacedEntry(area, start, cs, ps, qs, f, size);
      }
    }
  }

  lemma {:induction false} TimesMake(area: Area, start: Counters, cs: Counters, ps: seq<Piece>, f: Field, n: nat)
    requires MadeOf(area, start, cs, ps)
    ensures MadeOf(area, start, PlacedTimes(area, cs, f, n), ps + seq(n, _ => Piece(f, 28)))
  {
    if n == 0 {
      assert ps + seq(n, _ => Piece(f, 28)) == ps;
    } else {
      TimesMake(area, start, cs, ps, f, n - 1);
      var before := ps + seq(n - 1, _ => Piece(f, 28));
      assert ps + seq(n, _ => Piece(f, 28)) == before + [Piece(f, 28)];
      PlacedMakes(area, start, PlacedTimes(area, cs, f, n - 1), before, before + [Piece(f, 28)], f, 28);
    }
  }

  lemma FieldMakes(area: Area, start: Counters, cs: Counters, ps: seq<Piece>, f: Field)
    requires MadeOf(area, start, cs, ps)
    ensures PlacedField(area, cs, f).Some? <==> (f.size > 0 ==> f.kind != Time)
    ensures PlacedField(area, cs, f).Some? ==> MadeOf(area, start, PlacedField(area, cs, f).value, ps + PiecesOf(f))
  {
    if f.size == 0 {
      assert ps + PiecesOf(f) == ps;
    } else if f.isStruct {
      TimesMake(area, start, cs, ps, f, f.size);
    } else {
      PlacedMakes(area, start, cs, ps, ps + PiecesOf(f), f, f.size);
    }
  }

  lemma PiecesNext(fields: seq<Field>, n: nat)
    requires 0 < n <= |fields|
    ensures Pieces(fields[..n]) == Pieces(fields[..n - 1]) + PiecesOf(fields[n - 1])
  {
    assert fields[..n][..n - 1] == fields[..n - 1];
  }

  lemma {:induction false} LaidMakes(area: Area, start: Counters, fields: seq<Field>, n: nat)
    requires n <= |fields| && Laid(area, start, fields, n).Some?
    ensures MadeOf(area, start, Laid(area, start, fields, n).value, Pieces(fields[..n]))
  {
    if n == 0 {
      assert Pieces(fields[..0]) == [];
    } else {
      LaidMakes(area, start, fields, n - 1);
      PiecesNext(fields, n);
      FieldMakes(area, start, Laid(area, start, fields, n - 1).value, Pieces(fields[..n - 1]), fields[n - 1]);
    }
  }

  predicate HasPlace(f: Field) {
    f.size > 0 ==> f.kind != Time
  }

  lemma LaidOneMore(area: Area, start: Counters, fields: seq<Field>, n: nat)
    requires 0 < n <= |fields|
    ensures Laid(area, start, fields, n).Some? <==> Laid(area, start, fields, n - 1).Some? && HasPlace(fields[n - 1])
  {
  }

  predicate AllHavePlace(fields: seq<Field>, n: nat)
    requires n <= |fields|
  {
    forall k :: 0 <= k < n ==> HasPlace(fields[k])
  }

  lemma {:induction false} LaidWhenNoTime(area: Area, start: Counters, fields: seq<Field>, n: nat)
    requires n <= |fields|
    ensures Laid(area, start, fields, n).Some? <==> AllHavePlace(fields, n)
  {
    if n > 0 {
      LaidWhenNoTime(area, start, fields, n - 1);
      LaidOneMore(area, start, fields, n);
      assert AllHavePlace(fields, n) <==> AllHavePlace(fields, n - 1) && HasPlace(fields[n - 1]);
    }
  }

  /**
    The generator accepts a list of declarations exactly when none of them is a time, and then makes
    one entry for each declared piece, and no other: in their order, with the properties that the
    piece was declared with, behind the bytes, and in the mirror the saved bytes, of the pieces
    before it.
   */
  lemma LaidExactly(area: Area, start: Counters, fields: seq<Field>)
    ensures Laid(area, start, fields, |fields|).Some? <==>
            forall k :: 0 <= k < |fields| ==> (fields[k].size > 0 ==> fields[k].kind != Time)
    ensures Laid(area, start, fields, |fields|).Some? ==>
              MadeOf(area, start, Laid(area, start, fields, |fields|).value, Pieces(fields))
  {
    LaidWhenNoTime(area, start, fields, |fields|);
    if Laid(area, start, fields, |fields|).Some? {
      LaidMakes(area, start, fields, |fields|);
      assert fields[..|fields|] == fields;
    }
  }

  /** Behind the values of one piece, and not a byte further, lie those of the next. */
  lemma NextPieceIsBehind(area: Area, start: Counters, cs: Counters, ps: seq<Piece>, k: nat)
    requires MadeOf(area, start, cs, ps) && k + 1 < |ps|
    ensures var d, e := cs.regs[|start.regs| + k], cs.regs[|start.regs| + k + 1];
            e.address == d.address + d.size * Width(d.kind)
  {
    var made := cs.regs[|start.regs|..];
    assert PieceEntry(area, start, ps, k, made[k]) && PieceEntry(area, start, ps, k + 1, made[k + 1]);
  }

  /** A register answers to the word that it begins in and to every further word that it fills. */
  lemma WordsAnswered(d: Register, word: nat, mdbFunction: nat)
    ensures HoldsWord(d, word, mdbFunction) <==>
            && mdbFunction == d.mdbFunction
            && (word == d.mdbAddress
                || (word > d.mdbAddress && 2 * (word - d.mdbAddress) + 2 <= d.size * Width(d.kind)))
  {
    WidthIsSize(d.kind, d.size);
  }
}
