/**
  The fixed-size block pool (main/memory_handle.c): one marker per block, and an index where
  the search for a free block begins.
 */
module Pool {
  import opened Bits
  import opened Memory

  /** A pool as a value: block addresses, markers, and where the next search begins. */
  datatype Blocks = Blocks(base: nat, itemSz: nat, markers: seq<bool>, current: nat)
  {
    predicate Ok() {
      base > 0 && itemSz > 0 && (current < |markers| || current == 0)
    }

    /** The address of block `k`. */
    function Address(k: nat): nat {
      base + k * itemSz
    }

    /** The blocks in use. */
    function Live(): set<nat> {
      set k | 0 <= k < |markers| && markers[k] :: Address(k)
    }
  }

  // ---------------------------------------------------------------------------- addresses

  /** Multiples of `m` are at least `m` apart. */
  lemma {:induction false} MultiplesApart(j: nat, k: nat, m: nat)
    ensures j < k ==> j * m + m <= k * m
  {
    if j < k {
      MultiplesApart(j, k - 1, m);
      assert k * m == (k - 1) * m + m;
    }
  }

  lemma DivisionOfMultiple(k: nat, m: nat, r: nat)
    requires r < m
    ensures (k * m + r) / m == k && (k * m + r) % m == r
  {
    var q := (k * m + r) / m;
    assert q * m + (k * m + r) % m == k * m + r;
    MultiplesApart(q, k, m);
    MultiplesApart(k, q, m);
  }

  /** Blocks do not overlap. */
  lemma BlocksApart(b: Blocks, j: nat, k: nat)
    ensures j < k ==> b.Address(j) + b.itemSz <= b.Address(k)
  {
    MultiplesApart(j, k, b.itemSz);
  }

  lemma AddressIsUnique(b: Blocks, j: nat, k: nat)
    requires b.Ok()
    ensures b.Address(j) == b.Address(k) ==> j == k
  {
    BlocksApart(b, j, k);
    BlocksApart(b, k, j);
  }

  // --------------------------------------------------------------------------- allocating

  /** The block that step `i` of the search looks at: behind the last comes the first, again and again. */
  function Probe(b: Blocks, i: nat): nat {
    if b.current + i >= |b.markers| then 0 else b.current + i
  }

  /** The first free block that the search meets from step `i` on. */
  function Search(b: Blocks, i: nat): Option<nat>
    requires i <= |b.markers|
    decreases |b.markers| - i
  {
    if i == |b.markers| then None
    else if !b.markers[Probe(b, i)] then Some(Probe(b, i))
    else Search(b, i + 1)
  }

  /** `os_pool_alloc`: the new state and the block, if any. */
  function Allocate(b: Blocks): (Blocks, Option<nat>) {
    var k := Search(b, 0);
    if k == None then (b, None)
    else (b.(markers := if k.value < |b.markers| then b.markers[k.value := true] else b.markers, current := k.value),
          Some(b.Address(k.value)))
  }

  /** `os_pool_free`, with its codes. */
  function Release(b: Blocks, block: nat): (Blocks, int)
    requires b.Ok()
  {
    if block == 0 then (b, -2)
    else if block < b.base then (b, -3)
    else if (block - b.base) % b.itemSz != 0 then (b, -4)
    else if (block - b.base) / b.itemSz >= |b.markers| then (b, -5)
    else (b.(markers := b.markers[(block - b.base) / b.itemSz := false]), 0)
  }

  /** What the search finds is free; when it finds nothing, all it looked at is taken. */
  lemma {:induction false} SearchFinds(b: Blocks, i: nat)
    requires i <= |b.markers|
    ensures Search(b, i).Some? ==> Search(b, i).value < |b.markers| && !b.markers[Search(b, i).value]
    ensures Search(b, i) == None <==> forall j :: i <= j < |b.markers| ==> b.markers[Probe(b, j)]
    decreases |b.markers| - i
  {
    if i < |b.markers| {
      SearchFinds(b, i + 1);
    }
  }

  /**
    Allocation fails exactly when everything from the current index to the end is taken and,
    unless that is the whole pool, block 0 is taken too. Free blocks in between do not help.
   */
  lemma AllocateFailsExactly(b: Blocks)
    requires b.Ok()
    ensures Allocate(b).1 == None <==>
            && (forall k :: b.current <= k < |b.markers| ==> b.markers[k])
            && (b.current > 0 ==> b.markers[0])
  {
    SearchFinds(b, 0);
    if Allocate(b).1 == None {
      forall k | b.current <= k < |b.markers| ensures b.markers[k] {
        assert b.markers[Probe(b, k - b.current)];
      }
      if b.current > 0 {
        assert b.markers[Probe(b, |b.markers| - b.current)];
      }
    }
  }

  /** A block is free before it is handed out and taken afterwards; no other block is touched. */
  lemma AllocateTakesFree(b: Blocks)
    requires b.Ok()
    ensures Allocate(b).0.Ok() && |Allocate(b).0.markers| == |b.markers|
    ensures Allocate(b).1.Some? ==>
              var k := Allocate(b).0.current;
              && k < |b.markers| && !b.markers[k] && Allocate(b).1 == Some(b.Address(k))
              && Allocate(b).0 == b.(markers := b.markers[k := true], current := k)
  {
    SearchFinds(b, 0);
  }

  /** The block handed out is the first free one from the current index on, or else block 0. */
  lemma AllocateTakesFirst(b: Blocks)
    requires b.Ok() && Allocate(b).1.Some?
    ensures Allocate(b).0.current < |b.markers|
    ensures var k := Allocate(b).0.current;
            if k >= b.current then forall j :: b.current <= j < k ==> b.markers[j]
            else k == 0 && forall j :: b.current <= j < |b.markers| ==> b.markers[j]
  {
    SearchFinds(b, 0);
    SearchIsFirst(b, 0);
  }

  lemma {:induction false} SearchIsFirst(b: Blocks, i: nat)
    requires b.Ok() && i <= |b.markers| && Search(b, i).Some?
    requires forall j :: b.current <= j < |b.markers| && j < b.current + i ==> b.markers[j]
    ensures Search(b, i).value < |b.markers|
    ensures var k := Search(b, i).value;
            if k >= b.current then forall j :: b.current <= j < k ==> b.markers[j]
            else k == 0 && forall j :: b.current <= j < |b.markers| ==> b.markers[j]
    decreases |b.markers| - i
  {
    SearchFinds(b, i);
    if i < |b.markers| && b.markers[Probe(b, i)] {
      SearchIsFirst(b, i + 1);
    }
  }

  // ---------------------------------------------------------------------------- releasing

  /** Releasing clears the marker of the block at that address, or reports what is wrong with it. */
  lemma ReleaseExactly(b: Blocks, block: nat)
    requires b.Ok()
    ensures Release(b, block).0.Ok()
    ensures Release(b, block).1 == 0 <==> exists k :: 0 <= k < |b.markers| && block == b.Address(k)
    ensures forall k :: 0 <= k < |b.markers| && block == b.Address(k) ==>
              Release(b, block).0 == b.(markers := b.markers[k := false])
    ensures Release(b, block).1 != 0 ==> Release(b, block).0 == b
  {
    forall k | 0 <= k < |b.markers| && block == b.Address(k)
      ensures Release(b, block).1 == 0 && Release(b, block).0 == b.(markers := b.markers[k := false])
    {
      DivisionOfMultiple(k, b.itemSz, 0);
    }
    if Release(b, block).1 == 0 {
      var k := (block - b.base) / b.itemSz;
      assert block == b.Address(k);
    }
  }

  /** What is wrong with an address that is not released: it is NULL, lies before the pool, in a block, or behind. */
  lemma ReleaseCodes(b: Blocks, block: nat)
    requires b.Ok()
    ensures Release(b, block).1 == -2 <==> block == 0
    ensures Release(b, block).1 == -3 <==> 0 < block < b.base
    ensures Release(b, block).1 == -4 <==> block >= b.base && !exists k: nat :: block == b.Address(k)
    ensures Release(b, block).1 == -5 <==> exists k: nat :: k >= |b.markers| && block == b.Address(k)
  {
    if block >= b.base {
      var k := (block - b.base) / b.itemSz;
      assert (block - b.base) % b.itemSz == 0 ==> block == b.Address(k);
    }
    forall k: nat | block == b.Address(k)
      ensures block >= b.base && (block - b.base) % b.itemSz == 0 && (block - b.base) / b.itemSz == k
    {
      DivisionOfMultiple(k, b.itemSz, 0);
    }
  }

  // ------------------------------------------------------------------------------ indices

  /** `os_pool_get_by_index` */
  function GetByIndex(b: Blocks, index: nat): Option<nat> {
    if index < |b.markers| && b.markers[index] then Some(b.Address(index)) else None
  }

  /** `os_pool_get_index_by_pointer` */
  function GetIndexByPointer(b: Blocks, pointer: nat): int
    requires b.Ok()
  {
    if pointer < b.base || pointer >= b.base + b.itemSz * |b.markers| then -1
    else (pointer - b.base) / b.itemSz
  }

  /** A pointer into a block leads to its index, and the index back to the block. */
  lemma IndexRoundTrip(b: Blocks, index: nat, offset: nat)
    requires b.Ok() && index < |b.markers| && offset < b.itemSz
    ensures GetIndexByPointer(b, b.Address(index) + offset) == index
    ensures b.markers[index] ==> GetByIndex(b, index) == Some(b.Address(index))
  {
    DivisionOfMultiple(index, b.itemSz, offset);
    InsidePool(b, index);
    assert b.Address(index) + offset - b.base == index * b.itemSz + offset;
  }

  /** Every block ends inside the pool. */
  lemma InsidePool(b: Blocks, index: nat)
    requires index < |b.markers|
    ensures b.base <= b.Address(index) && b.Address(index) + b.itemSz <= b.base + b.itemSz * |b.markers|
  {
    MultiplesApart(index, |b.markers|, b.itemSz);
  }

  // --------------------------------------------------------------------------------- runs

  datatype Call = Alloc | Free(block: nat)

  /** Clients free only blocks that they hold. */
  predicate Honest(b: Blocks, calls: seq<Call>)
    requires b.Ok()
    decreases |calls|
  {
    calls != [] ==>
      && (calls[0].Free? ==> calls[0].block in b.Live())
      && (AfterOk(b, calls[0]); Honest(After(b, calls[0]), calls[1..]))
  }

  function After(b: Blocks, call: Call): Blocks
    requires b.Ok()
  {
    if call.Alloc? then Allocate(b).0 else Release(b, call.block).0
  }

  lemma AfterOk(b: Blocks, call: Call)
    requires b.Ok()
    ensures After(b, call).Ok()
    ensures var after := After(b, call);
            after.base == b.base && after.itemSz == b.itemSz && |after.markers| == |b.markers|
  {
    AllocateTakesFree(b);
  }

  /** The blocks that clients hold after an honest call. */
  function HeldAfter(b: Blocks, held: set<nat>, call: Call): set<nat>
    requires b.Ok()
  {
    if call.Free? then held - {call.block}
    else if Allocate(b).1.Some? then held + {Allocate(b).1.value} else held
  }

  function HeldAtEnd(b: Blocks, held: set<nat>, calls: seq<Call>): set<nat>
    requires b.Ok()
    decreases |calls|
  {
    if calls == [] then held
    else (AfterOk(b, calls[0]); HeldAtEnd(After(b, calls[0]), HeldAfter(b, held, calls[0]), calls[1..]))
  }

  function AtEnd(b: Blocks, calls: seq<Call>): (r: Blocks)
    requires b.Ok()
    ensures r.Ok()
    decreases |calls|
  {
    if calls == [] then b else (AfterOk(b, calls[0]); AtEnd(After(b, calls[0]), calls[1..]))
  }

  /** An allocated block was held by nobody, and is now the only block that became live. */
  lemma AllocateIsFresh(b: Blocks)
    requires b.Ok() && Allocate(b).1.Some?
    ensures Allocate(b).1.value !in b.Live()
    ensures Allocate(b).0.Live() == b.Live() + {Allocate(b).1.value}
  {
    AllocateTakesFree(b);
    var r, k := Allocate(b).0, Allocate(b).0.current;
    forall j | 0 <= j < |b.markers| ensures b.Address(j) == b.Address(k) ==> j == k {
      AddressIsUnique(b, j, k);
    }
    forall j: nat ensures r.Address(j) == b.Address(j) {
    }
    assert r.markers[k];
    forall p | p in b.Live() ensures p in r.Live() {
      var j :| 0 <= j < |b.markers| && b.markers[j] && b.Address(j) == p;
      assert r.markers[j];
    }
  }

  lemma ReleaseEndsLife(b: Blocks, block: nat)
    requires b.Ok() && block in b.Live()
    ensures Release(b, block).1 == 0 && Release(b, block).0.Live() == b.Live() - {block}
  {
    var k :| 0 <= k < |b.markers| && b.markers[k] && b.Address(k) == block;
    ReleaseExactly(b, block);
    var r := Release(b, block).0;
    forall p | p in b.Live() && p != block ensures p in r.Live() {
      var j :| 0 <= j < |b.markers| && b.markers[j] && b.Address(j) == p;
      assert r.markers[j] && r.Address(j) == p;
    }
    forall p | p in r.Live() ensures p in b.Live() && p != block {
      var j :| 0 <= j < |r.markers| && r.markers[j] && r.Address(j) == p;
      assert b.markers[j] && b.Address(j) == p;
      AddressIsUnique(b, j, k);
    }
  }

  /**
    Over every honest run the marked blocks are exactly the blocks that clients hold; so no
    block is handed out twice.
   */
  lemma {:induction false} HeldIsLive(b: Blocks, calls: seq<Call>)
    requires b.Ok() && Honest(b, calls)
    ensures HeldAtEnd(b, b.Live(), calls) == AtEnd(b, calls).Live()
    decreases |calls|
  {
    if calls != [] {
      AfterOk(b, calls[0]);
      if calls[0].Free? {
        ReleaseEndsLife(b, calls[0].block);
      } else if Allocate(b).1.Some? {
        AllocateIsFresh(b);
      }
      HeldIsLive(After(b, calls[0]), calls[1..]);
    }
  }

  /** Blocks in use lie inside the pool and do not overlap. */
  lemma LiveBlocksApart(b: Blocks, p: nat, q: nat)
    requires b.Ok() && p in b.Live() && q in b.Live() && p != q
    ensures Disjoint(p, b.itemSz, q, b.itemSz)
    ensures b.base <= p && p + b.itemSz <= b.base + b.itemSz * |b.markers|
  {
    var j :| 0 <= j < |b.markers| && b.markers[j] && b.Address(j) == p;
    var k :| 0 <= k < |b.markers| && b.markers[k] && b.Address(k) == q;
    BlocksApart(b, j, k);
    BlocksApart(b, k, j);
    InsidePool(b, j);
  }

  /** Without frees a new pool hands out all its blocks in order, and then no more. */
  lemma {:induction false} BlocksInOrder(b: Blocks, taken: nat)
    requires b.Ok() && taken <= |b.markers| && b.current == (if taken == 0 then 0 else taken - 1)
    requires forall k :: 0 <= k < |b.markers| ==> (b.markers[k] <==> k < taken)
    ensures Allocate(b).1 == if taken < |b.markers| then Some(b.Address(taken)) else None
    ensures taken < |b.markers| ==>
              var r := Allocate(b).0;
              r.current == taken && forall k :: 0 <= k < |b.markers| ==> (r.markers[k] <==> k < taken + 1)
  {
    if taken < |b.markers| {
      if taken > 0 {
        assert Probe(b, 0) == taken - 1 && Probe(b, 1) == taken;
        assert Search(b, 0) == Search(b, 1);
      }
      assert Search(b, if taken == 0 then 0 else 1) == Some(taken);
    } else {
      AllocateFailsExactly(b);
    }
  }

  /** Three allocations and a free in the middle: the pool has room but refuses. */
  lemma RoomButRefused(base: nat, itemSz: nat)
    requires base > 0 && itemSz > 0
    ensures var b := Blocks(base, itemSz, [true, false, true], 2);
            && b == Release(Blocks(base, itemSz, [true, true, true], 2), base + itemSz).0
            && !b.markers[1] && Allocate(b).1 == None
  {
    var full := Blocks(base, itemSz, [true, true, true], 2);
    assert full.Address(1) == base + itemSz;
    ReleaseExactly(full, base + itemSz);
    var b := Blocks(base, itemSz, [true, false, true], 2);
    AllocateFailsExactly(b);
  }

  /** The results of `n` allocations in a row. */
  function Handed(b: Blocks, n: nat): seq<Option<nat>>
    decreases n
  {
    if n == 0 then [] else [Allocate(b).1] + Handed(Allocate(b).0, n - 1)
  }

  lemma {:induction false} HandedInOrder(b: Blocks, taken: nat, n: nat, i: nat)
    requires b.Ok() && taken <= |b.markers| && b.current == (if taken == 0 then 0 else taken - 1)
    requires forall k :: 0 <= k < |b.markers| ==> (b.markers[k] <==> k < taken)
    requires i < n
    ensures |Handed(b, n)| == n
    ensures Handed(b, n)[i] == if taken + i < |b.markers| then Some(b.Address(taken + i)) else None
    decreases n
  {
    BlocksInOrder(b, taken);
    AllocateTakesFree(b);
    var next := if taken < |b.markers| then taken + 1 else taken;
    if i > 0 {
      HandedInOrder(Allocate(b).0, next, n - 1, i - 1);
    } else if n > 1 {
      HandedInOrder(Allocate(b).0, next, n - 1, 0);
    }
  }

  // ------------------------------------------------------------------- the control block

  /** Items are rounded up to whole words. */
  function ItemSize(itemSz: nat): (r: nat)
    ensures itemSz <= r < itemSz + 4 && r % 4 == 0
  {
    4 * ((itemSz + 3) / 4)
  }

  function Flags(markers: seq<byte>): (r: seq<bool>)
    ensures |r| == |markers|
    ensures forall k :: 0 <= k < |r| ==> r[k] == (markers[k] != 0)
  {
    seq(|markers|, k requires 0 <= k < |markers| => markers[k] != 0)
  }

  /** `os_pool_cb_t` */
  class PoolControl {
    const pool: nat
    const markers: array<byte>
    const itemSz: nat
    var currentIndex: nat

    ghost predicate Valid()
      reads this, markers
    {
      && Value().Ok()
      && forall k :: 0 <= k < markers.Length ==> markers[k] == 0 || markers[k] == 1
    }

    ghost function Value(): Blocks
      reads this, markers
    {
      Blocks(pool, itemSz, Flags(markers[..]), currentIndex)
    }

    /** `os_pool_create` after its three allocations succeeded. */
    constructor (poolSz: nat, itemSize: nat, memory: nat)
      requires itemSize > 0 && memory > 0
      ensures Valid() && fresh(markers)
      ensures Value() == Blocks(memory, ItemSize(itemSize), Flags(seq(poolSz, _ => 0)), 0)
    {
      pool := memory;
      itemSz := 4 * ((itemSize + 3) / 4);
      currentIndex := 0;
      markers := new byte[poolSz](_ => 0);
      new;
      assert markers[..] == seq(poolSz, _ => 0);
    }

    /** `os_pool_alloc` */
    method Alloc() returns (p: Option<nat>)
      requires Valid()
      modifies this, markers
      ensures Valid() && (Value(), p) == Allocate(old(Value()))
    {
      var i := 0;
      while i < markers.Length
        invariant 0 <= i <= markers.Length
        invariant Value() == old(Value()) && Valid()
        invariant Search(Value(), 0) == Search(Value(), i)
      {
        var index := currentIndex + i;
        if index >= markers.Length {
          index := 0;
        }
        if markers[index] == 0 {
          assert Search(Value(), 0) == Some(index);
          ghost var before := Value();
          markers[index] := 1;
          currentIndex := index;
          assert index * itemSz >= 0;
          assert Value().markers == before.markers[index := true];
          return Some(pool + index * itemSz);
        }
        i := i + 1;
      }
      return None;
    }

    /** `os_pool_free` */
    method Free(block: nat) returns (code: int)
      requires Valid()
      modifies markers
      ensures Valid() && (Value(), code) == Release(old(Value()), block)
    {
      if block == 0 {
        return -2;
      }
      if block < pool {
        return -3;
      }
      var offset := block - pool;
      if offset % itemSz != 0 {
        return -4;
      }
      var index := offset / itemSz;
      if index >= markers.Length {
        return -5;
      }
      ghost var before := Value();
      markers[index] := 0;
      assert Value().markers == before.markers[index := false];
      return 0;
    }
  }
}
