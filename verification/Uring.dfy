/** The io_uring transmit queue: slot states, counters and the free list. */
module Uring {
  import opened Words

  // The kernel is represented by how many submissions it has room for and by the completions it reports,
  // at most one for each slot in flight.

  const NONE: u16 := 65535

  datatype SlotState = Free | Staged | InFlight

  datatype Slot<A> = Slot(state: SlotState, data: seq<u8>, addr: Option<A>, nextFree: u16)

  datatype StageError = Busy

  datatype SubmitError = SubmitFailed

  datatype Completion = Completion(idx: nat, result: int)

  // ---- counting states ----

  function Count<A>(slots: seq<Slot<A>>, st: SlotState): (n: nat)
    ensures n <= |slots|
    decreases slots
  {
    if slots == [] then 0 else Count(slots[..|slots| - 1], st) + if slots[|slots| - 1].state == st then 1 else 0
  }

  lemma {:induction false} CountSet<A>(slots: seq<Slot<A>>, i: nat, x: Slot<A>, st: SlotState)
    requires i < |slots|
    ensures Count(slots[i := x], st)
            == Count(slots, st) + (if x.state == st then 1 else 0) - (if slots[i].state == st then 1 else 0)
    decreases slots
  {
    var k := |slots| - 1;
    if i < k {
      CountSet(slots[..k], i, x, st);
      assert slots[i := x][..k] == slots[..k][i := x];
    } else {
      assert slots[i := x][..k] == slots[..k];
    }
  }

  lemma {:induction false} CountNone<A>(slots: seq<Slot<A>>, st: SlotState)
    requires forall i :: 0 <= i < |slots| ==> slots[i].state != st
    ensures Count(slots, st) == 0
    decreases slots
  {
    if slots != [] { CountNone(slots[..|slots| - 1], st); }
  }

  /** Every slot is in one of the three states. */
  lemma {:induction false} CountsCover<A>(slots: seq<Slot<A>>)
    ensures Count(slots, Free) + Count(slots, Staged) + Count(slots, InFlight) == |slots|
    decreases slots
  {
    if slots != [] { CountsCover(slots[..|slots| - 1]); }
  }

  // ---- the free list ----

  /** `chain` is what following the links from `head` visits, in order. */
  ghost predicate Linked<A>(slots: seq<Slot<A>>, head: u16, chain: seq<nat>) {
    && head == (if chain == [] then NONE else chain[0])
    && forall k {:trigger chain[k]} :: 0 <= k < |chain| ==>
         && chain[k] < |slots| && chain[k] < NONE
         && slots[chain[k]].nextFree == if k + 1 < |chain| then chain[k + 1] else NONE
  }

  ghost predicate Distinct(chain: seq<nat>) {
    forall j, k :: 0 <= j < k < |chain| ==> chain[j] != chain[k]
  }

  /** The chain visits exactly the free slots an index word can name, each once. */
  ghost predicate VisitsFree<A>(slots: seq<Slot<A>>, chain: seq<nat>) {
    && Distinct(chain)
    && (forall i: nat :: i in chain <==> i < |slots| && i < NONE && slots[i].state.Free?)
  }

  /** The slots the index word cannot name are never used. */
  ghost predicate BeyondFree<A>(slots: seq<Slot<A>>) {
    forall i :: NONE <= i < |slots| ==> slots[i].state.Free?
  }

  // ---- links at construction ----

  /** The link `new` gives slot `i` of `n`. */
  function FirstLink(i: nat, n: nat): u16 { if i + 1 < n then (i + 1) % 0x1_0000 else NONE }

  // ---- the queue ----

  /** The completions are of distinct slots in flight. */
  ghost predicate FromKernel<A>(slots: seq<Slot<A>>, cs: seq<Completion>) {
    && (forall k {:trigger cs[k]} :: 0 <= k < |cs| ==> cs[k].idx < |slots| && slots[cs[k].idx].state.InFlight?)
    && (forall j, k :: 0 <= j < k < |cs| ==> cs[j].idx != cs[k].idx)
  }

  /** Indices of completions, last first. */
  function Freed(cs: seq<Completion>): (f: seq<nat>)
    ensures |f| == |cs|
    decreases cs
  {
    if cs == [] then [] else [cs[|cs| - 1].idx] + Freed(cs[..|cs| - 1])
  }

  ghost predicate Completes(cs: seq<Completion>, i: nat) { exists k :: 0 <= k < |cs| && cs[k].idx == i }

  lemma CompletesNext(cs: seq<Completion>, k: nat, i: nat)
    requires k < |cs| && cs[k].idx != i
    ensures Completes(cs[..k + 1], i) <==> Completes(cs[..k], i)
  {
    if Completes(cs[..k + 1], i) {
      var j :| 0 <= j < k + 1 && cs[..k + 1][j].idx == i;
      assert cs[..k][j].idx == i;
    }
    if Completes(cs[..k], i) {
      var j :| 0 <= j < k && cs[..k][j].idx == i;
      assert cs[..k + 1][j].idx == i;
    }
  }

  function Errors(cs: seq<Completion>): seq<int>
    decreases cs
  {
    if cs == [] then []
    else Errors(cs[..|cs| - 1]) + if cs[|cs| - 1].result < 0 then [cs[|cs| - 1].result] else []
  }

  lemma AllOf(cs: seq<Completion>)
    ensures cs[..|cs|] == cs
  {
  }

  lemma ReapedNext(cs: seq<Completion>, k: nat, chain: seq<nat>)
    requires k < |cs|
    ensures Freed(cs[..k + 1]) + chain == [cs[k].idx] + (Freed(cs[..k]) + chain)
    ensures Errors(cs[..k + 1]) == Errors(cs[..k]) + if cs[k].result < 0 then [cs[k].result] else []
  {
    assert cs[..k + 1][..k] == cs[..k];
  }

  class UringTx<A> {
    const slots: array<Slot<A>>
    var freeHead: u16
    var staged: nat
    var inflight: nat
    ghost var chain: seq<nat>

    ghost predicate Valid()
      reads this, slots
    {
      && 1 <= slots.Length
      && Linked(slots[..], freeHead, chain)
      && VisitsFree(slots[..], chain) && BeyondFree(slots[..])
      && staged == Count(slots[..], Staged)
      && inflight == Count(slots[..], InFlight)
      && staged + inflight + |chain| == Min(slots.Length, NONE)
    }

    constructor (requested: nat)
      ensures Valid() && fresh(slots) && slots.Length == Max(requested, 1)
      ensures staged == 0 && inflight == 0 && chain == seq(Min(slots.Length, NONE), i => i)
    {
      var n := Max(requested, 1);
      slots := new Slot<A>[n](i => FirstSlot(i, n));
      freeHead, staged, inflight := 0, 0, 0;
      chain := seq(Min(n, NONE), i => i);
      new;
      assert slots[..] == FirstSlots<A>(n);
      FirstSlotsValid<A>(n);
    }

    /** Slots neither staged nor in flight: those the chain visits, and those past 65535, which no call ever
        hands out. */
    method Available() returns (n: nat)
      requires Valid()
      ensures n == Count(slots[..], Free) == slots.Length - staged - inflight
      ensures n == |chain| + SatSub(slots.Length, NONE)
    {
      CountsCover(slots[..]);
      n := slots.Length - staged - inflight;
    }

    /** Fills the slot at the head of the free list, never one staged or in flight. It is busy exactly when
        every slot up to the 65535th is in use, however many more there are. */
    method Stage(peer: A, datagram: seq<u8>) returns (r: Result<(), StageError>)
      requires Valid()
      modifies this, slots
      ensures Valid()
      ensures r.Err? <==> forall i :: 0 <= i < slots.Length && i < NONE ==> !old(slots[i]).state.Free?
      ensures r.Err? <==> old(staged) + old(inflight) == Min(slots.Length, NONE)
      ensures r.Err? ==> slots[..] == old(slots[..]) && chain == old(chain)
      ensures r.Ok? ==>
                && old(chain) != [] && chain == old(chain)[1..] && staged == old(staged) + 1
                && var i := old(chain)[0];
                   && i < slots.Length && old(slots[..])[i].state.Free?
                   && slots[..] == old(slots[..])[i := Slot(Staged, datagram, Some(peer), old(slots[..])[i].nextFree)]
      ensures inflight == old(inflight)
    {
      ghost var before := slots[..];
      if freeHead == NONE {
        NoHeadNoChain(before, freeHead, chain);
        return Err(Busy);
      }
      var idx := freeHead;
      assert idx == chain[0] && idx in chain;
      var slot := slots[idx];
      freeHead := slot.nextFree;
      var x := slot.(data := datagram, addr := Some(peer), state := Staged);
      CountSet(before, idx, x, Staged);
      CountSet(before, idx, x, InFlight);
      slots[idx] := x;
      staged := staged + 1;
      chain := chain[1..];
      assert slots[..] == before[idx := x];
      StagedLinked(before, old(freeHead), old(chain), x);
      StagedVisits(before, old(chain), x);
      r := Ok(());
    }

    /** Moves the first `room` staged slots, in index order, to the kernel; the counters are updated even
        when the submission itself then fails. */
    method SubmitStaged(room: nat, submitOk: bool) returns (r: Result<nat, SubmitError>)
      requires Valid()
      modifies this, slots
      ensures Valid() && freeHead == old(freeHead) && chain == old(chain)
      ensures Moved(old(slots[..]), slots[..], room, slots.Length, Min(room, old(staged)))
      ensures staged == old(staged) - Min(room, old(staged)) && inflight == old(inflight) + Min(room, old(staged))
      ensures r == if old(staged) > 0 && room > 0 && !submitOk then Err(SubmitFailed) else Ok(Min(room, old(staged)))
    {
      ghost var before := slots[..];
      var pushed := PushStaged(room);
      MovedKeeps(before, slots[..], freeHead, chain, room, pushed);
      staged := staged - pushed;
      inflight := inflight + pushed;
      r := if pushed > 0 && !submitOk then Err(SubmitFailed) else Ok(pushed);
    }

    /** One queue entry for each staged slot in index order, until the queue is full. */
    method PushStaged(room: nat) returns (pushed: nat)
      modifies slots
      ensures pushed == Min(room, Count(old(slots[..]), Staged))
      ensures Moved(old(slots[..]), slots[..], room, slots.Length, pushed)
    {
      ghost var before := slots[..];
      var idx := 0;
      pushed := 0;
      while idx < slots.Length
        invariant 0 <= idx <= slots.Length && pushed == Min(room, Count(before[..idx], Staged))
        invariant Moved(before, slots[..], room, idx, pushed)
      {
        MovedNext(before, slots[..], room, idx, pushed);
        if slots[idx].state != Staged { idx := idx + 1; continue; }
        if pushed == room {
          MovedAll(before, slots[..], room, idx, pushed);
          break;
        }
        ghost var now := slots[..];
        slots[idx] := slots[idx].(state := InFlight);
        assert slots[..] == now[idx := now[idx].(state := InFlight)];
        pushed := pushed + 1;
        idx := idx + 1;
      }
      assert before[..|before|] == before;
      CountPrefix(before, idx, |before|, Staged);
    }

    /** Takes every completion: its slot becomes free and heads the list, and a negative result is reported. */
    method Reap(cs: seq<Completion>) returns (reaped: nat, errors: seq<int>)
      requires Valid() && FromKernel(slots[..], cs)
      modifies this, slots
      ensures Valid() && chain == Freed(cs) + old(chain)
      ensures inflight == old(inflight) - |cs| && staged == old(staged)
      ensures Returned(old(slots[..]), slots[..], cs)
      ensures reaped == |cs| && errors == Errors(cs)
    {
      ghost var before := slots[..];
      reaped, errors := 0, [];
      while reaped < |cs|
        invariant 0 <= reaped <= |cs| && errors == Errors(cs[..reaped]) && staged == old(staged)
        invariant Reaping(before, old(chain), old(inflight), cs, reaped)
      {
        ReapNext(before, old(chain), old(inflight), cs, reaped);
        if cs[reaped].result < 0 { errors := errors + [cs[reaped].result]; }
        reaped := reaped + 1;
      }
      AllOf(cs);
    }

    /** The queue with `k` of the completions taken. */
    ghost predicate Reaping(before: seq<Slot<A>>, first: seq<nat>, flying: nat, cs: seq<Completion>, k: nat)
      requires k <= |cs|
      reads this, slots
    {
      && Valid() && chain == Freed(cs[..k]) + first && inflight + k == flying
      && Returned(before, slots[..], cs[..k])
    }

    /** One turn of the completion loop. */
    method ReapNext(ghost before: seq<Slot<A>>, ghost first: seq<nat>, ghost flying: nat, cs: seq<Completion>, k: nat)
      requires k < |cs| && FromKernel(before, cs) && Reaping(before, first, flying, cs, k)
      modifies this, slots
      ensures Reaping(before, first, flying, cs, k + 1) && staged == old(staged)
      ensures Errors(cs[..k + 1]) == Errors(cs[..k]) + if cs[k].result < 0 then [cs[k].result] else []
    {
      ReapedNext(cs, k, first);
      ReturnedNext(before, slots[..], cs, k, freeHead);
      ReapOne(cs[k]);
    }

    method ReapOne(c: Completion)
      requires Valid() && c.idx < slots.Length && slots[c.idx].state.InFlight?
      modifies this, slots
      ensures Valid() && chain == [c.idx] + old(chain)
      ensures inflight == old(inflight) - 1 && staged == old(staged)
      ensures slots[..] == old(slots[..])[c.idx := old(slots[c.idx]).(state := Free, nextFree := old(freeHead))]
    {
      ghost var before := slots[..];
      var x := slots[c.idx].(state := Free, nextFree := freeHead);
      CountSet(before, c.idx, x, Staged);
      CountSet(before, c.idx, x, InFlight);
      FreedVisits(before, chain, c.idx, x);
      FreedLinked(before, freeHead, chain, c.idx, x);
      inflight := SatSub(inflight, 1);
      slots[c.idx] := x;
      freeHead := c.idx;
      chain := [c.idx] + chain;
      assert slots[..] == before[c.idx := x];
    }
  }

  // ---- what each operation keeps ----

  function FirstSlot<A>(i: int, n: nat): Slot<A> {
    Slot(Free, [], None, if 0 <= i then FirstLink(i, n) else NONE)
  }

  function FirstSlots<A>(n: nat): seq<Slot<A>> { seq(n, i => FirstSlot(i, n)) }

  lemma FirstSlotsValid<A>(n: nat)
    requires n >= 1
    ensures Linked(FirstSlots<A>(n), 0, seq(Min(n, NONE), i => i))
    ensures VisitsFree(FirstSlots<A>(n), seq(Min(n, NONE), i => i)) && BeyondFree(FirstSlots<A>(n))
    ensures Count(FirstSlots<A>(n), Staged) == 0 == Count(FirstSlots<A>(n), InFlight)
  {
    var slots := FirstSlots<A>(n);
    CountNone(slots, Staged);
    CountNone(slots, InFlight);
    FirstVisits(slots, seq(Min(n, NONE), i => i));
  }

  lemma FirstVisits<A>(slots: seq<Slot<A>>, chain: seq<nat>)
    requires |chain| == Min(|slots|, NONE) && forall i :: 0 <= i < |chain| ==> chain[i] == i
    requires forall i :: 0 <= i < |slots| ==> slots[i].state.Free?
    ensures VisitsFree(slots, chain)
  {
    forall i: nat
      ensures i in chain <==> i < |slots| && i < NONE && slots[i].state.Free?
    {
      if i < |slots| && i < NONE { assert chain[i] == i; }
    }
  }

  lemma NoHeadNoChain<A>(slots: seq<Slot<A>>, head: u16, chain: seq<nat>)
    requires Linked(slots, head, chain)
    ensures head == NONE <==> chain == []
  {
  }

  lemma StagedLinked<A>(before: seq<Slot<A>>, head: u16, chain: seq<nat>, x: Slot<A>)
    requires chain != [] && Linked(before, head, chain) && Distinct(chain)
    requires chain[0] < |before| && x.nextFree == before[chain[0]].nextFree
    ensures Linked(before[chain[0] := x], before[chain[0]].nextFree, chain[1..])
  {
    var rest, after := chain[1..], before[chain[0] := x];
    forall k | 0 <= k < |rest|
      ensures rest[k] < |after| && rest[k] < NONE
      ensures after[rest[k]].nextFree == if k + 1 < |rest| then rest[k + 1] else NONE
    {
      assert rest[k] == chain[k + 1] && chain[k + 1] != chain[0];
    }
    if rest != [] { assert rest[0] == chain[1]; }
  }

  lemma StagedVisits<A>(before: seq<Slot<A>>, chain: seq<nat>, x: Slot<A>)
    requires chain != [] && VisitsFree(before, chain) && x.state.Staged? && chain[0] < |before|
    ensures VisitsFree(before[chain[0] := x], chain[1..])
  {
    var rest, after := chain[1..], before[chain[0] := x];
    forall i: nat
      ensures i in rest <==> i < |after| && i < NONE && after[i].state.Free?
    {
      assert chain == [chain[0]] + rest;
      assert i in chain <==> i == chain[0] || i in rest;
      if i in rest { var k :| 0 <= k < |rest| && rest[k] == i; assert chain[k + 1] == i; }
    }
    assert forall j, k :: 0 <= j < k < |rest| ==> rest[j] == chain[j + 1] && rest[k] == chain[k + 1];
  }

  lemma FreedLinked<A>(before: seq<Slot<A>>, head: u16, chain: seq<nat>, idx: u16, x: Slot<A>)
    requires Linked(before, head, chain)
    requires idx < |before| && idx < NONE && idx !in chain && x.nextFree == head
    ensures Linked(before[idx := x], idx, [idx as nat] + chain)
  {
    var more, after := [idx as nat] + chain, before[idx := x];
    forall k | 0 <= k < |more|
      ensures more[k] < |after| && more[k] < NONE && after[more[k]].nextFree == if k + 1 < |more| then more[k + 1] else NONE
    {
      if k > 0 { assert more[k] == chain[k - 1] && chain[k - 1] in chain; }
    }
  }

  lemma FreedVisits<A>(before: seq<Slot<A>>, chain: seq<nat>, idx: nat, x: Slot<A>)
    requires VisitsFree(before, chain)
    requires idx < |before| && idx < NONE && !before[idx].state.Free? && x.state.Free?
    ensures idx !in chain && VisitsFree(before[idx := x], [idx] + chain)
  {
    var more, after := [idx] + chain, before[idx := x];
    forall i: nat
      ensures i in more <==> i < |after| && i < NONE && after[i].state.Free?
    {
      assert i in more <==> i == idx || i in chain;
    }
  }

  lemma {:induction false} CountPrefix<A>(slots: seq<Slot<A>>, i: nat, j: nat, st: SlotState)
    requires i <= j <= |slots|
    ensures Count(slots[..i], st) <= Count(slots[..j], st)
    decreases j
  {
    if i < j {
      CountPrefix(slots, i, j - 1, st);
      assert slots[..j][..j - 1] == slots[..j - 1];
    }
  }

  lemma CountNext<A>(slots: seq<Slot<A>>, i: nat, st: SlotState)
    requires i < |slots|
    ensures Count(slots[..i + 1], st) == Count(slots[..i], st) + if slots[i].state == st then 1 else 0
  {
    assert slots[..i + 1][..i] == slots[..i];
  }

  /** Slot `i` is among the first `room` staged slots in index order. */
  ghost predicate Chosen<A>(slots: seq<Slot<A>>, room: nat, i: nat)
    requires i < |slots|
  {
    slots[i].state.Staged? && Count(slots[..i], Staged) < room
  }

  /** Of the slots below `upto` exactly the chosen ones have gone from staged to in flight, `pushed` of
      them, and nothing else differs. */
  ghost predicate Moved<A>(before: seq<Slot<A>>, now: seq<Slot<A>>, room: nat, upto: nat, pushed: nat) {
    && |now| == |before|
    && Count(now, Staged) + pushed == Count(before, Staged)
    && Count(now, InFlight) == Count(before, InFlight) + pushed
    && forall i :: 0 <= i < |now| ==>
         now[i] == if i < upto && Chosen(before, room, i) then before[i].(state := InFlight) else before[i]
  }

  lemma MovedNext<A>(before: seq<Slot<A>>, now: seq<Slot<A>>, room: nat, idx: nat, pushed: nat)
    requires idx < |before| && Moved(before, now, room, idx, pushed)
    requires pushed == Min(room, Count(before[..idx], Staged))
    ensures now[idx] == before[idx]
    ensures Count(before[..idx + 1], Staged)
            == Count(before[..idx], Staged) + if now[idx].state.Staged? then 1 else 0
    ensures !now[idx].state.Staged? ==> Moved(before, now, room, idx + 1, pushed)
    ensures now[idx].state.Staged? && pushed < room ==>
              Moved(before, now[idx := now[idx].(state := InFlight)], room, idx + 1, pushed + 1)
  {
    var x := now[idx].(state := InFlight);
    CountNext(before, idx, Staged);
    CountSet(now, idx, x, Staged);
    CountSet(now, idx, x, InFlight);
  }

  /** A slot going from staged to in flight leaves the free list alone. */
  lemma MovedKeeps<A>(before: seq<Slot<A>>, after: seq<Slot<A>>, head: u16, chain: seq<nat>, room: nat, pushed: nat)
    requires Linked(before, head, chain) && VisitsFree(before, chain)
    requires Moved(before, after, room, |before|, pushed)
    ensures Linked(after, head, chain) && VisitsFree(after, chain)
  {
    assert forall i :: 0 <= i < |after| ==>
        after[i].nextFree == before[i].nextFree && (after[i].state.Free? <==> before[i].state.Free?);
  }

  /** Once the room is used up no later slot is chosen. */
  lemma MovedAll<A>(before: seq<Slot<A>>, now: seq<Slot<A>>, room: nat, idx: nat, pushed: nat)
    requires idx < |before| && Moved(before, now, room, idx, pushed)
    requires room <= Count(before[..idx], Staged)
    ensures Moved(before, now, room, |before|, pushed)
  {
    forall i | idx <= i < |before|
      ensures !Chosen(before, room, i)
    {
      CountPrefix(before, idx, i, Staged);
    }
  }

  /** Exactly the completed slots have become free, and no slot's datagram has changed. */
  ghost predicate Returned<A>(before: seq<Slot<A>>, now: seq<Slot<A>>, cs: seq<Completion>) {
    && |now| == |before|
    && forall i :: 0 <= i < |now| ==>
         && now[i].data == before[i].data && now[i].addr == before[i].addr
         && now[i].state == if Completes(cs, i) then Free else before[i].state
  }

  lemma ReturnedNext<A>(before: seq<Slot<A>>, now: seq<Slot<A>>, cs: seq<Completion>, k: nat, head: u16)
    requires k < |cs| && FromKernel(before, cs) && Returned(before, now, cs[..k])
    ensures cs[k].idx < |now| && now[cs[k].idx].state.InFlight?
    ensures Returned(before, now[cs[k].idx := now[cs[k].idx].(state := Free, nextFree := head)], cs[..k + 1])
  {
    var c := cs[k];
    assert !Completes(cs[..k], c.idx);
    assert cs[..k + 1][k] == c;
    forall i | 0 <= i < |now| && i != c.idx
      ensures Completes(cs[..k + 1], i) <==> Completes(cs[..k], i)
    {
      CompletesNext(cs, k, i);
    }
  }
}
