/** What holds over whole runs of the multi-producer queue. */
module MpmcRuns {
  import opened Mpmc
  import opened Words

  datatype Move<V> = Move(t: nat, act: Act<V>)

  ghost predicate IsRun<V>(run: seq<Queue<V>>, moves: seq<Move<V>>) {
    && |run| == |moves| + 1
    && Init(run[0])
    && forall i :: 0 <= i < |moves| ==> run[i].Fresh() && Next(run[i], moves[i].t, moves[i].act, run[i + 1])
  }

  lemma {:induction false} RunKeeps<V>(run: seq<Queue<V>>, moves: seq<Move<V>>)
    requires IsRun(run, moves) && run[0].cap >= 2
    ensures Inv(run[|moves|]) && run[|moves|].cap == run[0].cap
    decreases |moves|
  {
    if moves == [] {
      InitOk(run[0]);
    } else {
      var k := |moves| - 1;
      RunKeeps(run[..k + 1], moves[..k]);
      StepKeeps(run[k], moves[k].t, moves[k].act, run[k + 1]);
    }
  }

  /** First in, first out: in every interleaving of any number of threads, the value returned for
      the n-th claimed pop is the value of the n-th claimed push, and a claimed pop that has not
      returned is still under way, so no element is lost. */
  lemma Fifo<V>(run: seq<Queue<V>>, moves: seq<Move<V>>, n: nat)
    requires IsRun(run, moves) && run[0].cap >= 2
    ensures var s := run[|moves|];
            && s.deq <= s.enq == |s.pushed| && s.enq <= s.deq + s.cap
            && (n in s.popped ==> n < s.deq && s.popped[n] == s.pushed[n])
            && (n < s.deq ==> n in s.popped || PopClaimed(s, n))
  {
    RunKeeps(run, moves);
    var s := run[|moves|];
    if n < s.deq { assert PoppedOk(s, n); }
  }

  /** A position is returned once: the release that returns it finds it unreturned. */
  lemma ReturnedOnce<V>(run: seq<Queue<V>>, moves: seq<Move<V>>, t: nat, s': Queue<V>)
    requires IsRun(run, moves) && run[0].cap >= 2
    requires var s := run[|moves|]; Next(s, t, Go, s') && s.threads[t].PopRelease?
    ensures var s := run[|moves|];
            && s.threads[t].pos !in s.popped && s.threads[t].pos < |s.pushed|
            && s'.popped == s.popped[s.threads[t].pos := s.pushed[s.threads[t].pos]]
  {
    RunKeeps(run, moves);
    assert ThreadOk(run[|moves|], t);
  }

  /** No two threads own one cell at once, whatever each does with it. */
  lemma CellOwnership<V>(run: seq<Queue<V>>, moves: seq<Move<V>>, t: nat, u: nat)
    requires IsRun(run, moves) && run[0].cap >= 2
    requires var s := run[|moves|];
             && t in s.threads && u in s.threads && t != u
             && (s.threads[t].OwnsPush() || s.threads[t].OwnsPop())
             && (s.threads[u].OwnsPush() || s.threads[u].OwnsPop())
    ensures var s := run[|moves|]; s.cap > 0 && s.CellOf(s.threads[t].pos) != s.CellOf(s.threads[u].pos)
  {
    RunKeeps(run, moves);
    OwnersApart(run[|moves|], t, u);
  }

  /** When a push finds its cell behind it, in a state of the invariant. */
  lemma FullWhen<V>(s: Queue<V>, t: nat, s': Queue<V>)
    requires Inv(s) && s.cap >= 2 && s.Fresh() && Next(s, t, Go, s') && s.threads[t].PushSeq?
    ensures s'.threads[t].Idle? <==>
            && s.threads[t].pos == s.enq >= s.cap
            && (s.enq == s.deq + s.cap || PopClaimed(s, s.enq - s.cap))
  {
    PushTest(s, t);
    if s.threads[t].pos == s.enq {
      if s.enq >= s.cap {
        assert CellOk(s, s.enq - s.cap);
        if PopClaimed(s, s.enq - s.cap) {
          var u :| u in s.threads && s.threads[u].Popping(s.enq - s.cap);
          assert ThreadOk(s, u);
        }
      } else {
        assert VirginOk(s, s.enq);
      }
    }
  }

  /** `push` reports full exactly when, at the load of the cell's sequence, it aims at the tail and
      the cell one lap back is unreleased: the queue holds `cap` unpopped elements, or a consumer
      that claimed that cell has stalled. */
  lemma FullMeansUnreleased<V>(run: seq<Queue<V>>, moves: seq<Move<V>>, t: nat, s': Queue<V>)
    requires IsRun(run, moves) && run[0].cap >= 2 && run[|moves|].Fresh()
    requires var s := run[|moves|]; Next(s, t, Go, s') && s.threads[t].PushSeq?
    ensures var s := run[|moves|];
            s'.threads[t].Idle? <==>
            && s.threads[t].pos == s.enq >= s.cap
            && (s.enq == s.deq + s.cap || PopClaimed(s, s.enq - s.cap))
  {
    RunKeeps(run, moves);
    FullWhen(run[|moves|], t, s');
  }

  /** `pop` reports empty exactly when, at the load of the cell's sequence, it aims at the head and
      that cell is unpublished: nothing is claimed beyond it, or its producer has stalled. */
  lemma EmptyMeansUnpublished<V>(run: seq<Queue<V>>, moves: seq<Move<V>>, t: nat, s': Queue<V>)
    requires IsRun(run, moves) && run[0].cap >= 2 && run[|moves|].Fresh()
    requires var s := run[|moves|]; Next(s, t, Go, s') && s.threads[t].PopSeq?
    ensures var s := run[|moves|];
            s'.threads[t].Idle? <==>
            && s.threads[t].pos == s.deq
            && (s.deq == s.enq || PushClaimed(s, s.deq))
  {
    RunKeeps(run, moves);
    var s := run[|moves|];
    PopTest(s, t);
    if s.threads[t].pos == s.deq {
      if s.deq < s.enq {
        assert CellOk(s, s.deq);
        if PushClaimed(s, s.deq) {
          var u :| u in s.threads && s.threads[u].Pushing(s.deq);
          assert ThreadOk(s, u);
        }
      } else {
        SeqRange(s, s.deq);
      }
    }
  }
}
