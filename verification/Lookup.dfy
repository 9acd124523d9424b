/**
  The description list and its searches (main/regs_description.c).

  A linear scan defines what each search should find; the binary searches of the C code
  are loops proved to return exactly what the scan returns.
 */
module Lookup {
  import opened Bits
  import opened Memory
  import opened Registers

  /** A found description: its table and its index there. */
  datatype Place = Nowhere | At(table: nat, index: nat)

  // ------------------------------------------------------------------- linear scans

  /** The first register from `from` on that holds address `a`, or -1. */
  function ScanAddress(regs: seq<Register>, a: nat, from: nat := 0): (r: int)
    requires from <= |regs|
    ensures -1 <= r < |regs|
    ensures r >= 0 ==> from <= r && regs[r].Holds(a)
    decreases |regs| - from
  {
    if from == |regs| then -1
    else if regs[from].Holds(a) then from
    else ScanAddress(regs, a, from + 1)
  }

  /** Nothing before the scanned register, and nothing at all after a failed scan, holds `a`. */
  lemma {:induction false} ScanAddressFirst(regs: seq<Register>, a: nat, from: nat)
    requires from <= |regs|
    ensures var r := ScanAddress(regs, a, from);
            forall j :: from <= j < (if r < 0 then |regs| else r) ==> !regs[j].Holds(a)
    decreases |regs| - from
  {
    if from < |regs| && !regs[from].Holds(a) {
      ScanAddressFirst(regs, a, from + 1);
    }
  }

  /** The scan is the only answer with these two properties. */
  lemma ScanAddressUnique(regs: seq<Register>, a: nat, r: int)
    requires -1 <= r < |regs| && (r >= 0 ==> regs[r].Holds(a))
    requires forall j :: 0 <= j < (if r < 0 then |regs| else r) ==> !regs[j].Holds(a)
    ensures r == ScanAddress(regs, a)
  {
    ScanAddressFirst(regs, a, 0);
  }

  /** The first register from `from` on with the given guid, or -1. */
  function ScanGuid(regs: seq<Register>, guid: nat, from: nat := 0): (r: int)
    requires from <= |regs|
    ensures -1 <= r < |regs|
    ensures r >= 0 ==> from <= r && regs[r].guid == guid && forall j :: from <= j < r ==> regs[j].guid != guid
    ensures r < 0 ==> forall j :: from <= j < |regs| ==> regs[j].guid != guid
    decreases |regs| - from
  {
    if from == |regs| then -1
    else if regs[from].guid == guid then from
    else ScanGuid(regs, guid, from + 1)
  }

  /**
    The words a register answers to: its start and, when it is longer than a word, the
    words after it. A register of one byte has no whole word but still answers to its start.
   */
  predicate HoldsWord(d: Register, word: nat, mdbFunction: nat) {
    && d.mdbFunction == mdbFunction
    && (word == d.mdbAddress || d.mdbAddress < word < d.mdbAddress + d.Bytes() / 2)
  }

  function ScanWord(regs: seq<Register>, word: nat, mdbFunction: nat, from: nat := 0): (r: int)
    requires from <= |regs|
    ensures -1 <= r < |regs|
    ensures r >= 0 ==> from <= r && HoldsWord(regs[r], word, mdbFunction)
                       && forall j :: from <= j < r ==> !HoldsWord(regs[j], word, mdbFunction)
    ensures r < 0 ==> forall j :: from <= j < |regs| ==> !HoldsWord(regs[j], word, mdbFunction)
    decreases |regs| - from
  {
    if from == |regs| then -1
    else if HoldsWord(regs[from], word, mdbFunction) then from
    else ScanWord(regs, word, mdbFunction, from + 1)
  }

  // ---------------------------------------------------- what the binary searches need

  predicate GuidSorted(regs: seq<Register>) {
    forall i, j :: 0 <= i < j < |regs| ==> regs[i].guid < regs[j].guid
  }

  /** One function per table, starts strictly increasing, word ranges disjoint. */
  predicate WordSorted(regs: seq<Register>) {
    && (forall i, j :: 0 <= i < j < |regs| ==>
          regs[i].mdbAddress < regs[j].mdbAddress
          && regs[i].mdbAddress + regs[i].Bytes() / 2 <= regs[j].mdbAddress)
    && forall i, j :: 0 <= i < j < |regs| ==> regs[i].mdbFunction == regs[j].mdbFunction
  }

  method BinSearchAddress(regs: seq<Register>, a: nat) returns (result: int)
    requires AddressSorted(regs)
    ensures result == ScanAddress(regs, a)
  {
    var left, right := 0, |regs| - 1;
    while left <= right
      invariant 0 <= left <= right + 1 <= |regs|
      invariant forall j :: 0 <= j < left ==> !regs[j].Holds(a)
      invariant forall j :: right < j < |regs| ==> !regs[j].Holds(a)
      decreases right - left
    {
      var current := (left + right) / 2;
      if regs[current].address <= a && a < regs[current].End() {
        AtMostOneHolds(regs, a, current);
        ScanAddressUnique(regs, a, current);
        return current;
      } else if a > regs[current].address {
        left := current + 1;
      } else {
        right := current - 1;
      }
    }
    ScanAddressUnique(regs, a, -1);
    return -1;
  }

  lemma AtMostOneHolds(regs: seq<Register>, a: nat, i: nat)
    requires AddressSorted(regs) && i < |regs| && regs[i].Holds(a)
    ensures forall j :: 0 <= j < |regs| && j != i ==> !regs[j].Holds(a)
  {
  }

  method BinSearchGuid(regs: seq<Register>, guid: nat) returns (result: int)
    requires GuidSorted(regs)
    ensures result == ScanGuid(regs, guid)
  {
    var left, right := 0, |regs| - 1;
    while left <= right
      invariant 0 <= left <= right + 1 <= |regs|
      invariant forall j :: 0 <= j < left ==> regs[j].guid != guid
      invariant forall j :: right < j < |regs| ==> regs[j].guid != guid
      decreases right - left
    {
      var current := (left + right) / 2;
      if guid == regs[current].guid {
        return current;
      } else if guid > regs[current].guid {
        left := current + 1;
      } else {
        right := current - 1;
      }
    }
    return -1;
  }

  method BinSearchWord(regs: seq<Register>, word: nat, mdbFunction: nat) returns (result: int)
    requires WordSorted(regs)
    ensures result == ScanWord(regs, word, mdbFunction)
  {
    var left, right := 0, |regs| - 1;
    while left <= right
      invariant 0 <= left <= right + 1 <= |regs|
      invariant forall j :: 0 <= j < left ==> !HoldsWord(regs[j], word, mdbFunction)
      invariant forall j :: right < j < |regs| ==> !HoldsWord(regs[j], word, mdbFunction)
      decreases right - left
    {
      var current := (left + right) / 2;
      var d := regs[current];
      var words := d.Bytes() / 2;
      if mdbFunction == d.mdbFunction
         && (word == d.mdbAddress || (word > d.mdbAddress && word < d.mdbAddress + words)) {
        return current;
      } else if word > d.mdbAddress {
        left := current + 1;
      } else {
        right := current - 1;
      }
    }
    return -1;
  }

  // ------------------------------------------------------------------ across tables

  /** The first table from `from` on whose scan finds the address. */
  function FindAddress(tables: seq<Table>, a: nat, from: nat := 0): (p: Place)
    requires from <= |tables|
    ensures p.At? ==> from <= p.table < |tables| && p.index < |tables[p.table].regs|
                      && tables[p.table].regs[p.index].Holds(a)
    decreases |tables| - from
  {
    if from == |tables| then Nowhere
    else
      var i := ScanAddress(tables[from].regs, a);
      if i >= 0 then At(from, i) else FindAddress(tables, a, from + 1)
  }

  /** An address that some register holds is found. */
  lemma {:induction false} FindAddressFinds(tables: seq<Table>, a: nat, from: nat, t: nat, i: nat)
    requires from <= t < |tables| && i < |tables[t].regs| && tables[t].regs[i].Holds(a)
    ensures FindAddress(tables, a, from).At?
    decreases |tables| - from
  {
    ScanAddressFirst(tables[from].regs, a, 0);
    if from < t {
      FindAddressFinds(tables, a, from + 1, t, i);
    }
  }

  function FindGuid(tables: seq<Table>, guid: nat, from: nat := 0): (p: Place)
    requires from <= |tables|
    ensures p.At? ==> p.table < |tables| && p.index < |tables[p.table].regs|
                      && tables[p.table].regs[p.index].guid == guid
    ensures p == Nowhere ==>
              forall t, i :: from <= t < |tables| && 0 <= i < |tables[t].regs| ==> tables[t].regs[i].guid != guid
    decreases |tables| - from
  {
    if from == |tables| then Nowhere
    else
      var i := ScanGuid(tables[from].regs, guid);
      if i >= 0 then At(from, i) else FindGuid(tables, guid, from + 1)
  }

  /** The memory address of a Modbus word: `regs_description_get_pointer_by_modbus`. */
  function FindWord(tables: seq<Table>, word: nat, mdbFunction: nat, from: nat := 0): (p: Option<nat>)
    requires from <= |tables|
    ensures p.Some? <==> exists t, i :: from <= t < |tables| && 0 <= i < |tables[t].regs|
                                        && HoldsWord(tables[t].regs[i], word, mdbFunction)
    decreases |tables| - from
  {
    if from == |tables| then None
    else
      var i := ScanWord(tables[from].regs, word, mdbFunction);
      if i >= 0 then
        assert HoldsWord(tables[from].regs[i], word, mdbFunction);
        Some(tables[from].regs[i].address + (word - tables[from].regs[i].mdbAddress) * 2)
      else FindWord(tables, word, mdbFunction, from + 1)
  }

  /** One table of the scan for a word. */
  lemma FindWordAt(tables: seq<Table>, word: nat, mdbFunction: nat, from: nat, i: int)
    requires from < |tables| && i == ScanWord(tables[from].regs, word, mdbFunction)
    ensures i < 0 ==> FindWord(tables, word, mdbFunction, from) == FindWord(tables, word, mdbFunction, from + 1)
    ensures i >= 0 ==>
        var d := tables[from].regs[i];
        && word >= d.mdbAddress
        && FindWord(tables, word, mdbFunction, from) == Some(d.address + (word - d.mdbAddress) * 2)
  {
  }

  /** (`u`, `j`) is no earlier than (`t`, `i`). */
  predicate NotBefore(u: nat, j: nat, t: nat, i: nat) {
    t < u || (t == u && i <= j)
  }

  /** A GUID leads to the first register, in the first table, that has it. */
  lemma {:induction false} FindGuidLeads(tables: seq<Table>, guid: nat, from: nat, t: nat, i: nat)
    requires from <= t < |tables| && i < |tables[t].regs| && guid == tables[t].regs[i].guid
    requires forall u, j :: from <= u < |tables| && 0 <= j < |tables[u].regs| && tables[u].regs[j].guid == guid ==>
               NotBefore(u, j, t, i)
    ensures FindGuid(tables, guid, from) == At(t, i)
    decreases |tables| - from
  {
    var j := ScanGuid(tables[from].regs, guid);
    if from < t && j < 0 {
      FindGuidLeads(tables, guid, from + 1, t, i);
    }
  }

  /** An address leads to the first register, in the first table, that holds it. */
  lemma {:induction false} FindAddressLeads(tables: seq<Table>, a: nat, from: nat, t: nat, i: nat)
    requires from <= t < |tables| && i < |tables[t].regs| && tables[t].regs[i].Holds(a)
    requires forall u, j :: from <= u < |tables| && 0 <= j < |tables[u].regs| && tables[u].regs[j].Holds(a) ==>
               NotBefore(u, j, t, i)
    ensures FindAddress(tables, a, from) == At(t, i)
    decreases |tables| - from
  {
    ScanAddressFirst(tables[from].regs, a, 0);
    var j := ScanAddress(tables[from].regs, a);
    if from < t && j < 0 {
      FindAddressLeads(tables, a, from + 1, t, i);
    }
  }

  /** A word leads into the first register, in the first table, that answers to it. */
  lemma {:induction false} FindWordLeads(tables: seq<Table>, word: nat, mdbFunction: nat, from: nat, t: nat, i: nat)
    requires from <= t < |tables| && i < |tables[t].regs| && HoldsWord(tables[t].regs[i], word, mdbFunction)
    requires forall u, j ::
        from <= u < |tables| && 0 <= j < |tables[u].regs| && HoldsWord(tables[u].regs[j], word, mdbFunction) ==>
               NotBefore(u, j, t, i)
    ensures FindWord(tables, word, mdbFunction, from)
         == Some(tables[t].regs[i].address + (word - tables[t].regs[i].mdbAddress) * 2)
    decreases |tables| - from
  {
    var j := ScanWord(tables[from].regs, word, mdbFunction);
    if from < t && j < 0 {
      FindWordLeads(tables, word, mdbFunction, from + 1, t, i);
    }
  }

  /** The position of a description when all tables are counted through. */
  function GlobalIndex(tables: seq<Table>, p: Place): nat
    requires p.At? && p.table < |tables|
  {
    Total(tables, p.table) + p.index
  }

  function Total(tables: seq<Table>, t: nat): nat
    requires t <= |tables|
  {
    if t == 0 then 0 else Total(tables, t - 1) + |tables[t - 1].regs|
  }

  lemma {:induction false} TotalMonotone(tables: seq<Table>, t: nat, u: nat)
    requires t <= u <= |tables|
    ensures Total(tables, t) <= Total(tables, u)
    decreases u
  {
    if t < u {
      TotalMonotone(tables, t, u - 1);
    }
  }

  /** The description with a given global index, counting from table `from` on. */
  function PlaceAt(tables: seq<Table>, index: nat, from: nat := 0): (p: Place)
    requires from <= |tables| && Total(tables, from) <= index
    ensures p.At? <==> index < Total(tables, |tables|)
    ensures p.At? ==> p.table < |tables| && p.index < |tables[p.table].regs| && GlobalIndex(tables, p) == index
    decreases |tables| - from
  {
    if from == |tables| then Nowhere
    else if index < Total(tables, from + 1) then
      TotalMonotone(tables, from + 1, |tables|);
      At(from, index - Total(tables, from))
    else PlaceAt(tables, index, from + 1)
  }

  /** `regs_description_get_by_address`: the first table that has the address, by binary search in each. */
  method GetByAddress(tables: seq<Table>, a: nat) returns (p: Place)
    requires forall t :: 0 <= t < |tables| ==> AddressSorted(tables[t].regs)
    ensures p == FindAddress(tables, a)
  {
    var i := 0;
    while i < |tables|
      invariant 0 <= i <= |tables|
      invariant FindAddress(tables, a) == FindAddress(tables, a, i)
    {
      var j := BinSearchAddress(tables[i].regs, a);
      if j >= 0 {
        return At(i, j);
      }
      i := i + 1;
    }
    return Nowhere;
  }

  const LIST_DESCRIPTIONS_SIZE: nat := 32

  /** The static table list of regs_description.c. */
  class DescriptionList {
    var tables: seq<Table>
    var userTaskVars: u16

    constructor ()
      ensures tables == [] && userTaskVars == 0
    {
      tables := [];
      userTaskVars := 0;
    }

    ghost predicate Valid()
      reads this
    {
      |tables| <= LIST_DESCRIPTIONS_SIZE
    }

    /** `regs_description_list_add_new`: every table but the first counts as a user task's. */
    method AddNew(table: Table) returns (index: int)
      requires Valid()
      modifies this
      ensures Valid()
      ensures index < 0 <==> table.regs == [] || old(|tables|) == 32
      ensures index < 0 ==> tables == old(tables) && userTaskVars == old(userTaskVars)
      ensures index >= 0 ==>
                && index == old(|tables|) && tables == old(tables) + [table]
                && userTaskVars == if old(tables) == [] then old(userTaskVars)
                                   else (old(userTaskVars) + |table.regs|) % 65536
    {
      if |table.regs| > 0 && |tables| < LIST_DESCRIPTIONS_SIZE {
        if |tables| != 0 {
          userTaskVars := (userTaskVars + |table.regs|) % 65536;
        }
        index := |tables|;
        tables := tables + [table];
      } else {
        index := -1;
      }
    }

    method GetByGuid(guid: nat) returns (p: Place)
      requires Valid() && forall t :: 0 <= t < |tables| ==> GuidSorted(tables[t].regs)
      ensures p == FindGuid(tables, guid)
    {
      var i := 0;
      while i < |tables|
        invariant 0 <= i <= |tables|
        invariant FindGuid(tables, guid) == FindGuid(tables, guid, i)
      {
        var j := BinSearchGuid(tables[i].regs, guid);
        if j >= 0 {
          return At(i, j);
        }
        i := i + 1;
      }
      return Nowhere;
    }

    method GetPointerByModbus(word: nat, mdbFunction: nat) returns (p: Option<nat>)
      requires Valid() && forall t :: 0 <= t < |tables| ==> WordSorted(tables[t].regs)
      ensures p == FindWord(tables, word, mdbFunction)
    {
      var i := 0;
      while i < |tables|
        invariant 0 <= i <= |tables|
        invariant FindWord(tables, word, mdbFunction) == FindWord(tables, word, mdbFunction, i)
      {
        var j := BinSearchWord(tables[i].regs, word, mdbFunction);
        FindWordAt(tables, word, mdbFunction, i, j);
        if j >= 0 {
          var d := tables[i].regs[j];
          return Some(if word == d.mdbAddress then d.address else d.address + (word - d.mdbAddress) * 2);
        }
        i := i + 1;
      }
      return None;
    }

    /** `regs_description_get_index_by_address`: a linear search with a running base. */
    method GetIndexByAddress(a: nat) returns (index: int)
      requires Valid()
      ensures var p := FindAddress(tables, a);
              index == if p == Nowhere then -1 else GlobalIndex(tables, p)
    {
      var base := 0;
      var i := 0;
      while i < |tables|
        invariant 0 <= i <= |tables|
        invariant base == Total(tables, i)
        invariant FindAddress(tables, a) == FindAddress(tables, a, i)
      {
        var regs := tables[i].regs;
        var j := 0;
        while j < |regs|
          invariant 0 <= j <= |regs|
          invariant ScanAddress(regs, a) == ScanAddress(regs, a, j)
        {
          if regs[j].address <= a && a < regs[j].End() {
            return base + j;
          }
          j := j + 1;
        }
        base := base + |regs|;
        i := i + 1;
      }
      return -1;
    }

    /** `regs_description_get_by_index` */
    method GetByIndex(index: nat) returns (p: Place)
      requires Valid()
      ensures p == PlaceAt(tables, index)
    {
      var max, previous := 0, 0;
      var i := 0;
      while i < |tables|
        invariant 0 <= i <= |tables|
        invariant max == previous == Total(tables, i)
        invariant index >= Total(tables, i) && PlaceAt(tables, index) == PlaceAt(tables, index, i)
      {
        max := max + |tables[i].regs|;
        if index < max {
          return At(i, index - previous);
        }
        previous := max;
        i := i + 1;
      }
      return Nowhere;
    }
  }

  /**
    An address survives the trip through its global index: the description found by that
    index is the one found by the address.
   */
  lemma IndexRoundTrip(tables: seq<Table>, a: nat)
    requires FindAddress(tables, a).At?
    ensures PlaceAt(tables, GlobalIndex(tables, FindAddress(tables, a))) == FindAddress(tables, a)
  {
    PlaceOfGlobalIndex(tables, FindAddress(tables, a), 0);
  }

  lemma {:induction false} PlaceOfGlobalIndex(tables: seq<Table>, p: Place, from: nat)
    requires p.At? && from <= p.table < |tables| && p.index < |tables[p.table].regs|
    requires Total(tables, from) <= GlobalIndex(tables, p)
    ensures PlaceAt(tables, GlobalIndex(tables, p), from) == p
    decreases |tables| - from
  {
    if from < p.table {
      TotalMonotone(tables, from + 1, p.table);
      PlaceOfGlobalIndex(tables, p, from + 1);
    }
  }

  /** Appending tables moves neither the place nor the index of a described address. */
  lemma AppendKeepsPlaces(tables: seq<Table>, more: seq<Table>, a: nat, from: nat)
    requires from <= |tables|
    requires FindAddress(tables, a, from).At?
    ensures FindAddress(tables + more, a, from) == FindAddress(tables, a, from)
    ensures GlobalIndex(tables + more, FindAddress(tables, a, from)) ==
            GlobalIndex(tables, FindAddress(tables, a, from))
    decreases |tables| - from
  {
    TotalOfPrefix(tables, more, FindAddress(tables, a, from).table);
    if ScanAddress(tables[from].regs, a) < 0 {
      AppendKeepsPlaces(tables, more, a, from + 1);
    }
  }

  lemma {:induction false} TotalOfPrefix(tables: seq<Table>, more: seq<Table>, t: nat)
    requires t <= |tables|
    ensures Total(tables + more, t) == Total(tables, t)
  {
    if t > 0 {
      TotalOfPrefix(tables, more, t - 1);
    }
  }

  // ------------------------------------------------- what the lookups tell about addresses

  /** In a device no two descriptions hold the same address. */
  lemma OneHolder(cfg: Config, memSize: nat, t: nat, i: nat, u: nat, j: nat, a: nat)
    requires ConfigOk(cfg, memSize)
    requires t < |cfg.tables| && i < |cfg.tables[t].regs| && cfg.tables[t].regs[i].Holds(a)
    requires u < |cfg.tables| && j < |cfg.tables[u].regs| && cfg.tables[u].regs[j].Holds(a)
    ensures t == u && i == j
  {
    assert TableOk(cfg.tables[t]);
  }

  lemma FindAddressUnique(cfg: Config, memSize: nat, t: nat, i: nat, a: nat)
    requires ConfigOk(cfg, memSize)
    requires t < |cfg.tables| && i < |cfg.tables[t].regs| && cfg.tables[t].regs[i].Holds(a)
    ensures FindAddress(cfg.tables, a) == At(t, i)
  {
    FindAddressFinds(cfg.tables, a, 0, t, i);
    var p := FindAddress(cfg.tables, a);
    OneHolder(cfg, memSize, t, i, p.table, p.index, a);
  }
}
