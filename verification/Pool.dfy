/** The buffer pool over a queue of free slot indices: the object, for calls that do not overlap.
    `PoolSteps` has the interleaved steps. */
module Pool {
  import opened Words
  import opened MpmcRing

  /** Free and guarded indices are exactly `0..size`, each in one place. */
  ghost predicate Partition(items: seq<u32>, guards: set<u32>, size: nat) {
    && (forall i: u32 :: i in items <==> i < size && i !in guards)
    && (forall g :: g in guards ==> g < size)
    && Distinct(items)
  }

  ghost predicate Distinct<T>(s: seq<T>) {
    forall i, j :: 0 <= i < j < |s| ==> s[i] != s[j]
  }

  lemma {:induction false} DistinctCount<T>(s: seq<T>, elems: set<T>)
    requires Distinct(s) && forall x :: x in s <==> x in elems
    ensures |s| == |elems|
    decreases s
  {
    if s != [] {
      var k := |s| - 1;
      var t := s[..k];
      assert s == t + [s[k]];
      assert forall x :: x in t ==> x != s[k];
      DistinctCount(t, elems - {s[k]});
    } else {
      assert forall x :: x in elems ==> x in s;
      assert elems == {};
    }
  }

  function Range(n: nat): (r: set<u32>)
    requires n <= U32_SIZE
    ensures |r| == n && forall i: u32 :: i in r <==> i < n
  {
    if n == 0 then {} else Range(n - 1) + {n - 1}
  }

  lemma PartitionCount(items: seq<u32>, guards: set<u32>, size: nat)
    requires Partition(items, guards, size) && size <= U32_SIZE
    ensures |items| + |guards| == size
  {
    var elems := Range(size) - guards;
    DistinctCount(items, elems);
    assert guards <= Range(size);
    assert Range(size) == elems + guards;
  }

  lemma TakeFirst(items: seq<u32>, guards: set<u32>, size: nat)
    requires Partition(items, guards, size) && items != []
    ensures Partition(items[1..], guards + {items[0]}, size)
  {
    forall i: u32
      ensures i in items[1..] <==> i < size && i !in guards + {items[0]}
    {
      assert items == [items[0]] + items[1..];
      if i in items[1..] { assert i in items; }
    }
  }

  lemma AllIndices(items: seq<u32>, size: nat)
    requires size <= U32_SIZE && items == seq(size, k requires 0 <= k < size => k)
    ensures Partition(items, {}, size)
  {
    forall i: u32
      ensures i in items <==> i < size
    {
      if i < size { assert items[i] == i; }
    }
  }

  lemma GiveBack(items: seq<u32>, guards: set<u32>, size: nat, idx: u32)
    requires Partition(items, guards, size) && idx in guards
    ensures Partition(items + [idx], guards - {idx}, size)
  {
  }

  /** The free list with every index in it. */
  method FreeList(size: nat) returns (ring: MpmcRing<u32>)
    requires 1 <= size <= 0x8000_0000
    ensures ring.Valid() && fresh(ring) && fresh(ring.cells)
    ensures ring.cap >= size && (ring.cap == 1 ==> size == 1)
    ensures Partition(ring.items, {}, size)
  {
    ring := new MpmcRing<u32>(size);
    for i := 0 to size
      invariant ring.Valid() && fresh(ring) && fresh(ring.cells) && ring.cap == NextPow2(size)
      invariant ring.items == seq(i, k requires 0 <= k < i => k)
    {
      var _ := ring.Push(i, 0);
    }
    AllIndices(ring.items, size);
  }

  class BufferPool<T> {
    const free: MpmcRing<u32>
    const slots: array<Option<T>>
    const initialized: array<bool>
    var outstanding: nat
    ghost var guards: set<u32>   // the indices of the live `Pooled` guards

    ghost predicate Shape()
      reads this, free
    {
      && 1 <= slots.Length == initialized.Length <= free.cap
      && slots.Length <= 0x8000_0000
      && (free.cap == 1 ==> slots.Length == 1)
    }

    ghost predicate Valid()
      reads this, free, free.cells, slots, initialized
    {
      && Shape() && free.Valid()
      && Partition(free.items, guards, slots.Length)
      && outstanding == |guards|
      && (forall g :: g in guards ==> initialized[g])
      && (forall i :: 0 <= i < slots.Length && initialized[i] ==> slots[i].Some?)
    }

    constructor (requested: nat)
      requires requested <= 0x8000_0000
      ensures Valid() && fresh(free) && fresh(free.cells) && fresh(slots) && fresh(initialized)
      ensures slots.Length == Max(requested, 1) && guards == {} && outstanding == 0
    {
      var size := Max(requested, 1);
      var ring := FreeList(size);
      free := ring;
      slots := new Option<T>[size](_ => None);
      initialized := new bool[size](_ => false);
      outstanding, guards := 0, {};
      new;
    }

    /** Takes a slot nobody holds, or reports exhaustion exactly when every slot is guarded. Only a
        slot never taken before is initialized; any other keeps what its last holder left. */
    method GetWith(init: () -> T, spurious: nat) returns (r: Option<u32>)
      requires Valid()
      modifies this, free, free.cells, slots, initialized
      ensures Valid()
      ensures r.None? <==> |old(guards)| == slots.Length
      ensures r.None? ==> guards == old(guards) && slots[..] == old(slots[..])
      ensures r.Some? ==>
                && r.value < slots.Length && r.value !in old(guards) && guards == old(guards) + {r.value}
                && slots[..] == if old(initialized[..])[r.value] then old(slots[..])
                                else old(slots[..])[r.value := Some(init())]
    {
      ghost var items := free.items;
      PartitionCount(items, guards, slots.Length);
      var popped := free.Pop(spurious);
      if popped.None? {
        return None;
      }
      var idx := popped.value;
      assert idx == items[0] && idx in items;
      TakeFirst(items, guards, slots.Length);
      ghost var before := slots[..];
      outstanding := outstanding + 1;
      if !initialized[idx] {
        slots[idx] := Some(init());
        initialized[idx] := true;
      }
      assert slots[..] == if old(initialized[..])[idx] then before else before[idx := Some(init())];
      guards := guards + {idx};
      r := Some(idx);
    }

    /** Dropping a guard returns its index to the free list: none is lost, since there is room. */
    method Release(idx: u32, spurious: nat)
      requires Valid() && idx in guards
      modifies this, free, free.cells
      ensures Valid() && guards == old(guards) - {idx}
      ensures free.items == old(free.items) + [idx]
    {
      PartitionCount(free.items, guards, slots.Length);
      GiveBack(free.items, guards, slots.Length, idx);
      var _ := free.Push(idx, spurious);
      outstanding := outstanding - 1;
      guards := guards - {idx};
    }
  }
}
