/** The single-producer single-consumer ring, step by step and as an object. */
module Spsc {
  import opened Words

  // Steps are single atomic accesses, with cursors that wrap at the word size.

  // ---- cursors and contents ----

  ghost predicate IsCap(cap: int) {
    exists k: nat :: k <= 63 && cap == Pow2(k)
  }

  lemma CapFacts(cap: int)
    requires IsCap(cap)
    ensures 1 <= cap < U64_SIZE && U64_SIZE % cap == 0
  {
    var k: nat :| k <= 63 && cap == Pow2(k);
    Pow2At32();
    Pow2Divides(k, 63);
    Pow2Divides(k, 64);
  }

  /** `tail.wrapping_sub(head)`. */
  function Len(head: u64, tail: u64): (n: u64) { (tail - head) % U64_SIZE }

  /** The slot `i` places after `head`. */
  function At(head: nat, i: nat, cap: nat): nat
    requires cap > 0
  {
    (head + i) % cap
  }

  /** Masking the wrapped cursor gives the same slot. */
  lemma Masked(x: nat, i: nat, cap: nat)
    requires IsCap(cap)
    ensures cap > 0 && At(x % U64_SIZE, i, cap) == At(x, i, cap) && (x % U64_SIZE) % cap == x % cap
  {
    CapFacts(cap);
    ModMod(x, U64_SIZE, cap);
    ModAdd(x % U64_SIZE, i, cap);
    ModAdd(x, i, cap);
  }

  /** The slot under `tail`. */
  lemma TailSlot(head: u64, tail: u64, cap: nat)
    requires IsCap(cap)
    ensures cap > 0 && tail % cap == At(head, Len(head, tail), cap)
  {
    assert tail == (head + Len(head, tail)) % U64_SIZE;
    Masked(head + Len(head, tail), 0, cap);
  }

  /** Places less than a lap apart have different slots. */
  lemma Distinct(head: nat, i: nat, j: nat, cap: nat)
    requires cap > 0 && i < cap && j < cap && i != j
    ensures At(head, i, cap) != At(head, j, cap)
  {
    if At(head, i, cap) == At(head, j, cap) { ModInjective(head + i, head + j, cap); }
  }

  /** Every slot from `head` to `tail` is initialized. */
  ghost predicate Filled<V>(slots: seq<Option<V>>, head: u64, tail: u64) {
    |slots| > 0 && forall i: nat {:trigger At(head, i, |slots|)} :: i < Len(head, tail) ==> slots[At(head, i, |slots|)].Some?
  }

  /** The elements from `head` to `tail`, oldest first. */
  ghost function Items<V>(slots: seq<Option<V>>, head: u64, tail: u64): (s: seq<V>)
    requires Filled(slots, head, tail)
    ensures |s| == Len(head, tail)
  {
    seq(Len(head, tail), i requires 0 <= i < Len(head, tail) => slots[At(head, i, |slots|)].value)
  }

  lemma SameItems<V>(slots: seq<Option<V>>, slots': seq<Option<V>>, head: u64, tail: u64)
    requires Filled(slots, head, tail) && |slots'| == |slots|
    requires forall i: nat {:trigger At(head, i, |slots|)} :: i < Len(head, tail) ==>
               slots'[At(head, i, |slots|)] == slots[At(head, i, |slots|)]
    ensures Filled(slots', head, tail) && Items(slots', head, tail) == Items(slots, head, tail)
  {
    assert forall i: nat :: i < Len(head, tail) ==> slots'[At(head, i, |slots|)].Some?;
  }

  /** Writing the slot under `tail` of a ring that is not full touches no element. */
  lemma WriteFree<V>(slots: seq<Option<V>>, head: u64, tail: u64, v: V)
    requires IsCap(|slots|) && Filled(slots, head, tail) && Len(head, tail) < |slots|
    ensures var after := slots[tail % |slots| := Some(v)];
            Filled(after, head, tail) && Items(after, head, tail) == Items(slots, head, tail)
  {
    TailSlot(head, tail, |slots|);
    forall i: nat | i < Len(head, tail)
      ensures At(head, i, |slots|) != tail % |slots|
    {
      Distinct(head, i, Len(head, tail), |slots|);
    }
    SameItems(slots, slots[tail % |slots| := Some(v)], head, tail);
  }

  /** Moving `tail` on appends the element written under it. */
  lemma PublishItem<V>(slots: seq<Option<V>>, head: u64, tail: u64, v: V)
    requires IsCap(|slots|) && Filled(slots, head, tail) && Len(head, tail) < |slots|
    requires slots[tail % |slots|] == Some(v)
    ensures var tail' := (tail + 1) % U64_SIZE;
            Filled(slots, head, tail') && Items(slots, head, tail') == Items(slots, head, tail) + [v]
  {
    CapFacts(|slots|);
    TailSlot(head, tail, |slots|);
    LenGrows(head, tail);
    var tail' := (tail + 1) % U64_SIZE;
    var n := Len(head, tail);
    forall i: nat | i < n + 1
      ensures slots[At(head, i, |slots|)].Some?
    {
      if i < n { assert slots[At(head, i, |slots|)].Some?; }
    }
    assert Items(slots, head, tail')[n] == v;
    assert Items(slots, head, tail')[..n] == Items(slots, head, tail);
  }

  lemma LenGrows(head: u64, tail: u64)
    requires Len(head, tail) < U64_SIZE - 1
    ensures Len(head, (tail + 1) % U64_SIZE) == Len(head, tail) + 1
  {
  }

  lemma LenShrinks(head: u64, tail: u64)
    requires head != tail
    ensures Len((head + 1) % U64_SIZE, tail) == Len(head, tail) - 1
  {
  }

  lemma LenZero(head: u64, tail: u64)
    ensures Len(head, tail) == 0 <==> head == tail
  {
  }

  /** Moving `head` on removes the oldest element. */
  lemma ReleaseItem<V>(slots: seq<Option<V>>, head: u64, tail: u64)
    requires IsCap(|slots|) && Filled(slots, head, tail) && head != tail
    ensures var head' := (head + 1) % U64_SIZE;
            Filled(slots, head', tail) && Items(slots, head', tail) == Items(slots, head, tail)[1..]
  {
    var head' := (head + 1) % U64_SIZE;
    LenShrinks(head, tail);
    forall i: nat | i < Len(head', tail)
      ensures At(head', i, |slots|) == At(head, i + 1, |slots|)
    {
      Masked(head + 1, i, |slots|);
    }
  }

  /** The slot under `head` of a ring that is not empty holds the oldest element. */
  lemma HeadItem<V>(slots: seq<Option<V>>, head: u64, tail: u64)
    requires Filled(slots, head, tail) && head != tail
    ensures slots[head % |slots|] == Some(Items(slots, head, tail)[0])
  {
    assert At(head, 0, |slots|) == head % |slots|;
  }

  // ---- one producer and one consumer, step by step ----

  datatype Producer<V> = PIdle | PLoadTail(v: V) | PLoadHead(v: V, t: u64) | PWrite(v: V, t: u64) | PStoreTail(v: V, t: u64)

  datatype Consumer<V> = CIdle | CLoadHead | CLoadTail(h: u64) | CRead(h: u64) | CStoreHead(v: V, h: u64)

  datatype Ring<V> = Ring(slots: seq<Option<V>>, head: u64, tail: u64, prod: Producer<V>, cons: Consumer<V>)

  datatype Act<V> = CallPush(v: V) | CallPop | Producer | Consumer

  /** What a step means to the callers, at its linearization point. */
  datatype Event<V> = Silent | Pushed(v: V) | Full(v: V) | Popped(v: V) | Empty

  ghost predicate ProducerStep<V>(s: Ring<V>, e: Event<V>, s': Ring<V>)
    requires |s.slots| > 0
  {
    match s.prod
    case PIdle => false
    case PLoadTail(v) => e == Silent && s' == s.(prod := PLoadHead(v, s.tail))
    case PLoadHead(v, t) =>
      if Len(s.head, t) >= |s.slots|
      then e == Full(v) && s' == s.(prod := PIdle)
      else e == Silent && s' == s.(prod := PWrite(v, t))
    case PWrite(v, t) =>
      e == Silent && s' == s.(prod := PStoreTail(v, t), slots := s.slots[t % |s.slots| := Some(v)])
    case PStoreTail(v, t) => e == Pushed(v) && s' == s.(prod := PIdle, tail := (t + 1) % U64_SIZE)
  }

  ghost predicate ConsumerStep<V>(s: Ring<V>, e: Event<V>, s': Ring<V>)
    requires |s.slots| > 0
  {
    match s.cons
    case CIdle => false
    case CLoadHead => e == Silent && s' == s.(cons := CLoadTail(s.head))
    case CLoadTail(h) =>
      if h == s.tail
      then e == Empty && s' == s.(cons := CIdle)
      else e == Silent && s' == s.(cons := CRead(h))
    case CRead(h) =>
      var slot := s.slots[h % |s.slots|];
      slot.Some? && e == Silent && s' == s.(cons := CStoreHead(slot.value, h))
    case CStoreHead(v, h) => e == Popped(v) && s' == s.(cons := CIdle, head := (h + 1) % U64_SIZE)
  }

  ghost predicate Next<V>(s: Ring<V>, act: Act<V>, e: Event<V>, s': Ring<V>) {
    && |s.slots| > 0
    && match act
       case CallPush(v) => s.prod.PIdle? && e == Silent && s' == s.(prod := PLoadTail(v))
       case CallPop => s.cons.CIdle? && e == Silent && s' == s.(cons := CLoadHead)
       case Producer => ProducerStep(s, e, s')
       case Consumer => ConsumerStep(s, e, s')
  }

  /** A ring as `with_capacity` makes it. */
  ghost predicate Init<V>(s: Ring<V>) {
    IsCap(|s.slots|) && s.head == 0 && s.tail == 0 && s.prod.PIdle? && s.cons.CIdle?
  }

  ghost predicate ProducerOk<V>(s: Ring<V>)
    requires |s.slots| > 0
  {
    match s.prod
    case PLoadHead(v, t) => t == s.tail
    case PWrite(v, t) => t == s.tail && Len(s.head, s.tail) < |s.slots|
    case PStoreTail(v, t) => t == s.tail && Len(s.head, s.tail) < |s.slots| && s.slots[t % |s.slots|] == Some(v)
    case _ => true
  }

  ghost predicate ConsumerOk<V>(s: Ring<V>)
    requires Filled(s.slots, s.head, s.tail)
  {
    match s.cons
    case CLoadTail(h) => h == s.head
    case CRead(h) => h == s.head && s.head != s.tail
    case CStoreHead(v, h) => h == s.head && s.head != s.tail && v == Items(s.slots, s.head, s.tail)[0]
    case _ => true
  }

  ghost predicate Inv<V>(s: Ring<V>) {
    && IsCap(|s.slots|) && Filled(s.slots, s.head, s.tail)
    && Len(s.head, s.tail) <= |s.slots|
    && ProducerOk(s) && ConsumerOk(s)
  }

  /** The queue a ring stands for. */
  ghost function Queue<V>(s: Ring<V>): seq<V>
    requires Inv(s)
  {
    Items(s.slots, s.head, s.tail)
  }

  /** A bounded first-in first-out queue of capacity `cap`. */
  ghost predicate Fifo<V>(cap: nat, q: seq<V>, e: Event<V>, q': seq<V>) {
    match e
    case Silent => q' == q
    case Pushed(v) => |q| < cap && q' == q + [v]
    case Full(_) => |q| == cap && q' == q
    case Popped(v) => |q| > 0 && v == q[0] && q' == q[1..]
    case Empty => q == [] && q' == q
  }

  lemma ProducerKeeps<V>(s: Ring<V>, e: Event<V>, s': Ring<V>)
    requires Inv(s) && ProducerStep(s, e, s')
    ensures Inv(s') && Fifo(|s.slots|, Queue(s), e, Queue(s'))
  {
    CapFacts(|s.slots|);
    match s.prod
    case PWrite(v, t) => WriteFree(s.slots, s.head, s.tail, v);
    case PStoreTail(v, t) => TailStored(s, v, s');
    case _ =>
  }

  lemma TailStored<V>(s: Ring<V>, v: V, s': Ring<V>)
    requires Inv(s) && s.prod == PStoreTail(v, s.tail)
    requires s' == s.(prod := PIdle, tail := (s.tail + 1) % U64_SIZE)
    ensures Inv(s') && Queue(s') == Queue(s) + [v]
  {
    CapFacts(|s.slots|);
    LenGrows(s.head, s.tail);
    PublishItem(s.slots, s.head, s.tail, v);
    LenZero(s.head, s.tail);
    LenZero(s.head, s'.tail);
  }

  lemma ConsumerKeeps<V>(s: Ring<V>, e: Event<V>, s': Ring<V>)
    requires Inv(s) && ConsumerStep(s, e, s')
    ensures Inv(s') && Fifo(|s.slots|, Queue(s), e, Queue(s'))
  {
    match s.cons
    case CLoadTail(h) => LenZero(h, s.tail);
    case CRead(h) => HeadItem(s.slots, s.head, s.tail);
    case CStoreHead(v, h) =>
      LenZero(h, s.tail);
      HeadStored(s, s');
    case _ =>
  }

  lemma HeadStored<V>(s: Ring<V>, s': Ring<V>)
    requires Inv(s) && s.head != s.tail && s' == s.(cons := CIdle, head := (s.head + 1) % U64_SIZE)
    ensures Inv(s') && Queue(s') == Queue(s)[1..]
  {
    LenShrinks(s.head, s.tail);
    ReleaseItem(s.slots, s.head, s.tail);
  }

  /** Each atomic step refines the bounded queue: "full" and "empty" are true when they are decided,
      a push takes effect when it stores `tail`, a pop when it stores `head`. */
  lemma StepRefines<V>(s: Ring<V>, act: Act<V>, e: Event<V>, s': Ring<V>)
    requires Inv(s) && Next(s, act, e, s')
    ensures Inv(s') && |s'.slots| == |s.slots|
    ensures Fifo(|s.slots|, Queue(s), e, Queue(s'))
  {
    match act
    case Producer => ProducerKeeps(s, e, s');
    case Consumer => ConsumerKeeps(s, e, s');
    case _ =>
  }

  /** The slot being written is never the slot being read, and the slot read is initialized. */
  lemma SlotsApart<V>(s: Ring<V>)
    requires Inv(s) && s.cons.CRead?
    ensures s.slots[s.cons.h % |s.slots|].Some?
    ensures s.prod.PWrite? ==> s.prod.t % |s.slots| != s.cons.h % |s.slots|
  {
    HeadItem(s.slots, s.head, s.tail);
    if s.prod.PWrite? {
      TailSlot(s.head, s.tail, |s.slots|);
      Distinct(s.head, 0, Len(s.head, s.tail), |s.slots|);
      assert At(s.head, 0, |s.slots|) == s.head % |s.slots|;
    }
  }

  // ---- whole runs ----

  ghost predicate Linked<V>(run: seq<Ring<V>>, acts: seq<Act<V>>, events: seq<Event<V>>, i: nat)
    requires i < |acts| == |events| < |run|
  {
    Next(run[i], acts[i], events[i], run[i + 1])
  }

  ghost predicate IsRun<V>(run: seq<Ring<V>>, acts: seq<Act<V>>, events: seq<Event<V>>) {
    && |run| == |acts| + 1 && |events| == |acts|
    && Init(run[0])
    && forall i {:trigger Linked(run, acts, events, i)} :: 0 <= i < |acts| ==> Linked(run, acts, events, i)
  }

  /** The values accepted by `push`, in order. */
  function Accepted<V>(events: seq<Event<V>>): seq<V> {
    if events == [] then []
    else Accepted(events[..|events| - 1]) + if events[|events| - 1].Pushed? then [events[|events| - 1].v] else []
  }

  /** The values returned by `pop`, in order. */
  function Returned<V>(events: seq<Event<V>>): seq<V> {
    if events == [] then []
    else Returned(events[..|events| - 1]) + if events[|events| - 1].Popped? then [events[|events| - 1].v] else []
  }

  /** After any interleaving, what `pop` has returned followed by what the ring holds is what `push`
      has accepted: nothing lost, duplicated, reordered or altered, and never more than `cap` held. */
  lemma {:induction false} RunRefines<V>(run: seq<Ring<V>>, acts: seq<Act<V>>, events: seq<Event<V>>)
    requires IsRun(run, acts, events)
    ensures Inv(run[|acts|]) && |run[|acts|].slots| == |run[0].slots|
    ensures Returned(events) + Queue(run[|acts|]) == Accepted(events)
    ensures |Queue(run[|acts|])| == Len(run[|acts|].head, run[|acts|].tail) <= |run[0].slots|
    decreases |acts|
  {
    if acts == [] {
      assert Queue(run[0]) == [];
    } else {
      var k := |acts| - 1;
      var run0, acts0, events0 := run[..k + 1], acts[..k], events[..k];
      forall i | 0 <= i < k
        ensures Linked(run0, acts0, events0, i)
      {
        assert Linked(run, acts, events, i);
      }
      RunRefines(run0, acts0, events0);
      assert Linked(run, acts, events, k);
      StepRefines(run[k], acts[k], events[k], run[k + 1]);
      Extended(events, |run[k].slots|, Queue(run[k]), Queue(run[k + 1]));
    }
  }

  lemma Extended<V>(events: seq<Event<V>>, cap: nat, q: seq<V>, q': seq<V>)
    requires events != []
    requires Fifo(cap, q, events[|events| - 1], q')
    requires Returned(events[..|events| - 1]) + q == Accepted(events[..|events| - 1])
    ensures Returned(events) + q' == Accepted(events)
  {
    var before := events[..|events| - 1];
    History(cap, q, events[|events| - 1], q', Returned(before), Accepted(before));
  }

  lemma History<V>(cap: nat, q: seq<V>, e: Event<V>, q': seq<V>, out: seq<V>, into: seq<V>)
    requires Fifo(cap, q, e, q') && out + q == into
    ensures (out + if e.Popped? then [e.v] else []) + q' == into + if e.Pushed? then [e.v] else []
  {
    match e
    case Popped(v) =>
      assert q == [v] + q';
      assert (out + [v]) + q' == out + ([v] + q');
    case Pushed(v) => assert out + (q + [v]) == (out + q) + [v];
    case _ =>
  }

  // ---- the ring object ----

  /** One endpoint at a time calls it; the steps above cover both at once. */
  class SpscRing<V> {
    const slots: array<Option<V>>   // `None` where the storage is uninitialized
    var head: u64
    var tail: u64

    ghost predicate Valid()
      reads this, slots
    {
      IsCap(slots.Length) && Filled(slots[..], head, tail) && Len(head, tail) <= slots.Length
    }

    ghost function Contents(): seq<V>
      requires Valid()
      reads this, slots
    {
      Items(slots[..], head, tail)
    }

    constructor (capacity: nat)
      requires capacity <= 0x8000_0000
      ensures Valid() && fresh(slots)
      ensures slots.Length == NextPow2(Max(capacity, 1)) && Contents() == []
    {
      var cap := NextPow2(Max(capacity, 1));
      slots := new Option<V>[cap](_ => None);
      head, tail := 0, 0;
    }

    method Push(value: V) returns (r: Result<(), V>)
      requires Valid()
      modifies this`tail, slots
      ensures Valid()
      ensures r == if |old(Contents())| == slots.Length then Err(value) else Ok(())
      ensures Contents() == if r.Ok? then old(Contents()) + [value] else old(Contents())
    {
      var t := tail;
      if Len(head, t) >= slots.Length {
        return Err(value);
      }
      CapFacts(slots.Length);
      WriteFree(slots[..], head, t, value);
      ghost var before := slots[..];
      slots[t % slots.Length] := Some(value);
      assert slots[..] == before[t % slots.Length := Some(value)];
      LenGrows(head, t);
      PublishItem(slots[..], head, t, value);
      tail := (t + 1) % U64_SIZE;
      r := Ok(());
    }

    method Pop() returns (r: Option<V>)
      requires Valid()
      modifies this`head
      ensures Valid()
      ensures r == if old(Contents()) == [] then None else Some(old(Contents())[0])
      ensures Contents() == if r.None? then [] else old(Contents())[1..]
    {
      var h := head;
      if h == tail {
        return None;
      }
      CapFacts(slots.Length);
      HeadItem(slots[..], h, tail);
      LenShrinks(h, tail);
      ReleaseItem(slots[..], h, tail);
      r := slots[h % slots.Length];
      head := (h + 1) % U64_SIZE;
    }

    /** Pushes the longest prefix that fits. */
    method PushSlice(slice: seq<V>) returns (n: nat)
      requires Valid()
      modifies this`tail, slots
      ensures Valid()
      ensures n == Min(|slice|, slots.Length - |old(Contents())|)
      ensures Contents() == old(Contents()) + slice[..n]
    {
      n := 0;
      while n < |slice|
        invariant Valid() && n <= |slice| && head == old(head)
        invariant Contents() == old(Contents()) + slice[..n]
      {
        var pushed := Push(slice[n]);
        if pushed.Err? {
          break;
        }
        assert slice[..n + 1] == slice[..n] + [slice[n]];
        n := n + 1;
      }
    }
  }
}
