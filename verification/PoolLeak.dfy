/** A run of the buffer pool that loses a slot. */
module PoolLeak {
  import opened Mpmc
  import opened PoolSteps
  import opened Words

  /** A pool of two slots and two threads: the state after `i` steps. Thread 0 stalls between
      claiming and releasing the first cell; thread 1 takes slot 1 and drops it. */
  function LeakState(i: nat): Pool {
    var taker := if i == 0 then Idle else if i == 1 then PopLoad else if i == 2 then PopSeq(0)
                 else if i == 3 then PopCas(0) else PopRead(0);
    var dropper := if i <= 4 then Idle else if i == 5 then PopLoad else if i == 6 then PopSeq(1)
                   else if i == 7 then PopCas(1) else if i == 8 then PopRead(1)
                   else if i == 9 then PopRelease(1, 1) else if i <= 14 then Idle
                   else if i == 15 then PushLoad(1) else if i == 16 then PushSeq(1, 2) else Idle;
    var stage := if i <= 4 then Outside else if i <= 9 then Taking else if i == 10 then Took(1)
                 else if i == 11 then Checking(1) else if i == 12 then Filling(1) else if i == 13 then Marking(1)
                 else if i == 14 then Outside else if i <= 16 then Giving else Gave;
    var done := i >= 10;
    Pool(Queue(2, [1, if done then 3 else 2], [0, 1], 2, if i <= 3 then 0 else if i <= 7 then 1 else 2,
               map[0 := taker, 1 := dropper], [0, 1], if done then map[1 := 1] else map[]),
         2, map[0 := if i == 0 then Outside else Taking, 1 := stage],
         [false, i >= 14], [false, i >= 13], if i <= 10 then 0 else 1,
         if i == 14 then map[0 := 1] else map[], if i >= 17 then {1} else {})
  }

  function LeakMove(i: nat): PoolMove {
    if i == 0 then PoolMove(0, Get)
    else if i <= 3 then PoolMove(0, Free(Go))
    else if i == 4 then PoolMove(1, Get)
    else if i <= 9 then PoolMove(1, Free(Go))
    else if i <= 13 then PoolMove(1, Own(0))
    else if i == 14 then PoolMove(1, DropGuard(0))
    else PoolMove(1, Free(Go))
  }

  ghost predicate LeakStepOk(i: nat) {
    LeakState(i).q.Fresh() && PoolSteps.Next(LeakState(i), LeakMove(i).t, LeakMove(i).act, LeakState(i + 1))
  }

  /** What the step does to the free list, where it is a step of the free list. */
  ghost predicate LeakQueueOk(i: nat) {
    var act := if LeakMove(i).act.Get? then StartPop else if LeakMove(i).act.DropGuard? then StartPush(1) else Go;
    Mpmc.Next(LeakState(i).q, LeakMove(i).t, act, LeakState(i + 1).q)
  }

  lemma LeakFresh(i: nat)
    requires i < 17
    ensures LeakState(i).q.Fresh()
  {
  }

  lemma LeakClaims(i: nat)
    requires 0 <= i < 4
    ensures LeakQueueOk(i)
  {
  }

  lemma LeakTakes(i: nat)
    requires 4 <= i < 7
    ensures LeakQueueOk(i)
  {
  }

  lemma LeakPops(i: nat)
    requires 7 <= i < 10
    ensures LeakQueueOk(i)
  {
  }

  lemma LeakDrops(i: nat)
    requires 14 <= i < 17
    ensures LeakQueueOk(i)
  {
  }

  lemma LeakGets(i: nat)
    requires i < 10 && LeakQueueOk(i) && LeakState(i).q.Fresh()
    ensures LeakStepOk(i)
  {
  }

  lemma LeakGuards(i: nat)
    requires 10 <= i < 14 && LeakState(i).q.Fresh()
    ensures LeakStepOk(i)
  {
  }

  lemma LeakGives(i: nat)
    requires 14 <= i < 17 && LeakQueueOk(i) && LeakState(i).q.Fresh()
    ensures LeakStepOk(i)
  {
  }

  lemma LeakInit()
    ensures PoolSteps.Init(LeakState(0))
  {
    assert seq(2, i => i) == [0, 1];
    assert seq(2, i => false) == [false, false];
  }

  lemma LeakStep(i: nat)
    requires i < 17
    ensures LeakStepOk(i)
  {
    LeakFresh(i);
    if i < 10 {
      if i < 4 { LeakClaims(i); } else if i < 7 { LeakTakes(i); } else { LeakPops(i); }
      LeakGets(i);
    } else if i < 14 {
      LeakGuards(i);
    } else {
      LeakDrops(i);
      LeakGives(i);
    }
  }

  /** From a fresh pool, a drop that meets a stalled `get_with` loses its slot. */
  lemma LeakRun() returns (run: seq<Pool>, moves: seq<PoolMove>)
    ensures PoolSteps.IsRun(run, moves) && run[|moves|].lost == {1}
  {
    run, moves := seq(18, i requires 0 <= i => LeakState(i)), seq(17, i requires 0 <= i => LeakMove(i));
    LeakInit();
    forall i | 0 <= i < |moves|
      ensures Linked(run, moves, i)
    {
      LeakStep(i);
    }
  }
}
