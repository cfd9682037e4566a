/** The multi-producer multi-consumer queue as an object, for calls that do not overlap (module
    `Mpmc` has the interleaved steps). Positions and sequences are the wrapping words the code
    keeps. A compare-and-swap can still fail spuriously, any number of times. */
module MpmcRing {
  import opened Words
  import Mpmc

  /** `value` is `None` while the cell's storage is uninitialized or moved out of. */
  datatype CellSlot<T> = CellSlot(seqNo: u64, value: Option<T>)

  class MpmcRing<T> {
    const cap: nat
    const cells: array<CellSlot<T>>
    var enqueuePos: u64
    var dequeuePos: u64
    ghost var head: nat        // the position `dequeuePos` stands for
    ghost var items: seq<T>

    ghost predicate Sized()
      reads this
    {
      && cells.Length == cap
      && (exists k: nat :: k <= 60 && cap == Pow2(k))
      && |items| <= cap
      && dequeuePos == head % U64_SIZE
      && enqueuePos == (head + |items|) % U64_SIZE
    }

    /** What the cell of position `p` holds. */
    ghost predicate Holds(p: nat)
      requires cap > 0 && cells.Length == cap && head <= p
      reads this, cells
    {
      var cell := cells[Mpmc.Cell(p, cap)];
      if p < head + |items| then cell == CellSlot((p + 1) % U64_SIZE, Some(items[p - head]))
      else p < head + cap ==> cell.seqNo == p % U64_SIZE
    }

    ghost predicate Valid()
      reads this, cells
    {
      Sized() && forall p: nat {:trigger Holds(p)} :: head <= p ==> Holds(p)
    }

    constructor (capacity: nat)
      requires capacity <= 0x8000_0000
      ensures Valid() && fresh(cells)
      ensures cap == NextPow2(Max(capacity, 1)) && items == [] && head == 0
    {
      var size := NextPow2(Max(capacity, 1));
      SizeDivides(size);
      assert exists k: nat :: k <= 60 && size == Pow2(k) by { var k: nat :| k <= 31 && size == Pow2(k); }
      cap := size;
      cells := new CellSlot<T>[size](i => CellSlot(if 0 <= i < U64_SIZE then i else 0, None));
      enqueuePos, dequeuePos := 0, 0;
      head, items := 0, [];
      new;
      forall p: nat | head <= p
        ensures Holds(p)
      {
        if p < size {
          Mpmc.CellSmall(p, size);
          assert cells[p].seqNo == p;
        }
      }
    }

    /** The masked word of a position is its cell. */
    lemma Masked(p: nat)
      requires Sized()
      ensures cap > 0 && (p % U64_SIZE) % cap == Mpmc.Cell(p, cap)
    {
      var k: nat :| k <= 60 && cap == Pow2(k);
      Mpmc.CellOfWord(p, k);
    }

    lemma CapBound()
      requires Sized()
      ensures 1 <= cap <= Mpmc.MAX_CELLS
    {
      var k: nat :| k <= 60 && cap == Pow2(k);
      Pow2At32();
      Pow2Divides(k, 60);
      Pow2Add(60, 4);
      assert Pow2(4) == 16;
    }

    /** The sequence `push` finds in the cell of the tail position. */
    lemma TailSeq()
      requires Valid()
      ensures cap > 0 && cells.Length == cap && enqueuePos % cap < cap
      ensures cells[enqueuePos % cap].seqNo == (if |items| < cap then head + |items| else head + 1) % U64_SIZE
    {
      var p := head + |items|;
      CapBound();
      Masked(p);
      if |items| < cap {
        assert Holds(p);
      } else {
        assert Holds(head);
        assert Mpmc.Cell(p, cap) == Mpmc.Cell(head, cap);
      }
    }

    /** What `push` finds when it compares it with the tail position. */
    lemma TailTest()
      requires Valid()
      ensures cap > 0 && cells.Length == cap && enqueuePos % cap < cap
      ensures var diff := Mpmc.SignedDiff(cells[enqueuePos % cap].seqNo, enqueuePos);
              diff == if |items| < cap then 0 else 1 - cap
    {
      var p := head + |items|;
      var q := if |items| < cap then p else head + 1;
      CapBound();
      TailSeq();
      Mpmc.DiffExact(q, p);
      WordDiff(q, p);
    }

    lemma HeadTest()
      requires Valid()
      ensures cap > 0 && cells.Length == cap && dequeuePos % cap < cap
      ensures var diff := Mpmc.SignedDiff(cells[dequeuePos % cap].seqNo, (dequeuePos + 1) % U64_SIZE);
              diff == if items == [] then -1 else 0
    {
      CapBound();
      Masked(head);
      assert Holds(head);
      ModAdd(head, 1, U64_SIZE);
      var ready := if items == [] then head else head + 1;
      Mpmc.DiffExact(ready, head + 1);
      WordDiff(ready, head + 1);
    }

    /** Words of two positions differ as the positions do. */
    lemma WordDiff(p: nat, q: nat)
      ensures Mpmc.SignedDiff(p % U64_SIZE, q % U64_SIZE) == Mpmc.SignedDiff(p, q)
    {
      WordTwice(p);
      WordTwice(q);
    }

    lemma WordTwice(p: nat)
      ensures (p % U64_SIZE) % U64_SIZE == p % U64_SIZE
    {
    }

    /** Positions of one lap have cells of their own. */
    lemma OtherCell(p: nat, q: nat)
      requires cap > 0 && p < q < p + cap
      ensures Mpmc.Cell(p, cap) != Mpmc.Cell(q, cap)
    {
      Mpmc.CellNear(p, q, cap);
    }

    /** Appends to a queue that has room and refuses a full one; but a queue of a single cell takes
        a second element in place of the first. */
    method Push(value: T, spurious: nat) returns (r: Result<(), T>)
      requires Valid()
      modifies this, cells
      ensures r == if |old(items)| < cap || cap == 1 then Ok(()) else Err(value)
      ensures cap >= 2 || old(items) == [] ==>
                && Valid() && head == old(head)
                && items == if |old(items)| < cap then old(items) + [value] else old(items)
      ensures cap == 1 && old(items) != [] ==> cells[0].value == Some(value) && dequeuePos == old(dequeuePos)
    {
      var pos, fails := enqueuePos, spurious;
      while true
        invariant Valid() && pos == enqueuePos
        invariant head == old(head) && items == old(items) && dequeuePos == old(dequeuePos)
        decreases fails
      {
        TailTest();
        var i := pos % cap;
        var diff := Mpmc.SignedDiff(cells[i].seqNo, pos);
        if diff == 0 {
          if fails > 0 {
            fails, pos := fails - 1, enqueuePos;
            continue;
          }
          label Claim:
          ghost var tail := head + |items|;
          Masked(tail);
          ModAdd(tail, 1, U64_SIZE);
          enqueuePos := (pos + 1) % U64_SIZE;
          cells[i] := CellSlot((pos + 1) % U64_SIZE, Some(value));
          if |items| < cap {
            items := items + [value];
            forall p: nat | head <= p
              ensures Holds(p)
            {
              assert old@Claim(Holds(p));
              if p < tail { OtherCell(p, tail); } else if tail < p < head + cap { OtherCell(tail, p); }
            }
          }
          return Ok(());
        } else {
          // The third case of the source, a stale position, needs another thread.
          return Err(value);
        }
      }
    }

    /** Removes the oldest element; `None` from an empty queue. */
    method Pop(spurious: nat) returns (r: Option<T>)
      requires Valid()
      modifies this, cells
      ensures Valid()
      ensures r == if old(items) == [] then None else Some(old(items)[0])
      ensures items == if old(items) == [] then [] else old(items)[1..]
      ensures head == if old(items) == [] then old(head) else old(head) + 1
    {
      var pos, fails := dequeuePos, spurious;
      while true
        invariant Valid() && pos == dequeuePos
        invariant head == old(head) && items == old(items)
        decreases fails
      {
        HeadTest();
        var i := pos % cap;
        var diff := Mpmc.SignedDiff(cells[i].seqNo, (pos + 1) % U64_SIZE);
        if diff == 0 {
          if fails > 0 {
            fails, pos := fails - 1, dequeuePos;
            continue;
          }
          r := Take(pos);
          return;
        } else {
          return None;
        }
      }
    }

    /** The claim of a pop that has found the cell of `pos` ready. */
    method Take(pos: u64) returns (r: Option<T>)
      requires Valid() && items != [] && pos == dequeuePos && pos % cap < cells.Length == cap
      modifies this, cells
      ensures Valid() && r == Some(old(items)[0])
      ensures items == old(items)[1..] && head == old(head) + 1
    {
      var i := pos % cap;
      Masked(head);
      ModAdd(head, 1, U64_SIZE);
      ModAdd(head, cap, U64_SIZE);
      assert Holds(head);
      dequeuePos := (pos + 1) % U64_SIZE;
      r := cells[i].value;
      cells[i] := CellSlot((pos + cap) % U64_SIZE, None);
      head, items := head + 1, items[1..];
      forall p: nat | head <= p
        ensures Holds(p)
      {
        assert old(Holds(p));
        if p < head + cap - 1 { OtherCell(head - 1, p); }
      }
    }
  }
}
