/** Why the multi-producer multi-consumer queue needs two cells. */
module MpmcOneCell {
  import opened Mpmc
  import opened MpmcRuns
  import opened Words

  // In a queue of one, "published at p" and "free for p + 1" are the same sequence value.

  /** One thread on a one-cell queue nobody has popped from. */
  function Solo(ph: Phase<int>, cellSeq: nat, cellVal: int, pushed: seq<int>): Queue<int> {
    Queue(1, [cellSeq], [cellVal], |pushed|, 0, map[0 := ph], pushed, map[])
  }

  lemma SoloSet(ph: Phase<int>, ph': Phase<int>, cellSeq: nat, cellVal: int, pushed: seq<int>)
    ensures Solo(ph, cellSeq, cellVal, pushed).At(0, ph') == Solo(ph', cellSeq, cellVal, pushed)
  {
    assert map[0 := ph][0 := ph'] == map[0 := ph'];
  }

  /** The thread's state after `k` steps of one push. */
  function SoloPush(v: int, held: int, pushed: seq<int>, k: nat): Queue<int> {
    var n := |pushed|;
    if k == 0 then Solo(Idle, n, held, pushed)
    else if k == 1 then Solo(PushLoad(v), n, held, pushed)
    else if k == 2 then Solo(PushSeq(v, n), n, held, pushed)
    else if k == 3 then Solo(PushCas(v, n), n, held, pushed)
    else if k == 4 then Solo(PushWrite(v, n), n, held, pushed + [v])
    else if k == 5 then Solo(PushPublish(v, n), n, v, pushed + [v])
    else Solo(Idle, n + 1, v, pushed + [v])
  }

  function SoloMove(v: int, k: nat): Move<int> { Move(0, if k == 0 then StartPush(v) else Go) }

  /** One push finds the cell free at its position, whatever it still holds. */
  lemma SoloPushStep(v: int, held: int, pushed: seq<int>, k: nat)
    requires k < 6
    ensures SoloPush(v, held, pushed, k).Fresh()
    ensures var m := SoloMove(v, k);
            Next(SoloPush(v, held, pushed, k), m.t, m.act, SoloPush(v, held, pushed, k + 1))
  {
    var n := |pushed|;
    DiffExact(n, n);
    SoloSet(Idle, PushLoad(v), n, held, pushed);
    SoloSet(PushLoad(v), PushSeq(v, n), n, held, pushed);
    SoloSet(PushSeq(v, n), PushCas(v, n), n, held, pushed);
    SoloSet(PushCas(v, n), PushWrite(v, n), n, held, pushed);
    SoloSet(PushWrite(v, n), PushPublish(v, n), n, held, pushed + [v]);
    SoloSet(PushPublish(v, n), Idle, n, v, pushed + [v]);
  }

  /** Pushing 7 and then 8 into one cell. */
  function OverwriteState(i: nat): Queue<int> {
    if i < 6 then SoloPush(7, 0, [], i) else SoloPush(8, 7, [7], i - 6)
  }

  function OverwriteRun(): seq<Queue<int>> { seq(13, i requires 0 <= i => OverwriteState(i)) }

  function OverwriteMoves(): seq<Move<int>> {
    seq(12, i requires 0 <= i => if i < 6 then SoloMove(7, i) else SoloMove(8, i - 6))
  }

  lemma OverwriteJoin()
    ensures SoloPush(7, 0, [], 6) == SoloPush(8, 7, [7], 0)
  {
    var none: seq<int> := [];
    assert none + [7] == [7];
  }

  lemma OverwriteAt(i: nat) returns (v: int, held: int, pushed: seq<int>, k: nat)
    requires i < 12
    ensures k < 6 && |pushed| < 2
    ensures OverwriteState(i) == SoloPush(v, held, pushed, k)
    ensures OverwriteState(i + 1) == SoloPush(v, held, pushed, k + 1)
    ensures OverwriteMoves()[i] == SoloMove(v, k)
  {
    OverwriteJoin();
    if i < 6 { v, held, pushed, k := 7, 0, [], i; } else { v, held, pushed, k := 8, 7, [7], i - 6; }
  }

  lemma OverwriteStep(i: nat)
    requires i < 12
    ensures OverwriteState(i).Fresh()
    ensures var m := OverwriteMoves()[i]; Next(OverwriteState(i), m.t, m.act, OverwriteState(i + 1))
  {
    var v, held, pushed, k := OverwriteAt(i);
    SoloPushStep(v, held, pushed, k);
  }

  lemma OverwriteIsRun()
    ensures IsRun(OverwriteRun(), OverwriteMoves())
  {
    var run, moves := OverwriteRun(), OverwriteMoves();
    forall i | 0 <= i < |moves|
      ensures run[i].Fresh() && Next(run[i], moves[i].t, moves[i].act, run[i + 1])
    {
      OverwriteStep(i);
      assert run[i] == OverwriteState(i) && run[i + 1] == OverwriteState(i + 1);
    }
  }

  /** With one cell, two pushes in a row both succeed and the second overwrites the first. */
  lemma OneCellOverwrites()
    ensures IsRun(OverwriteRun(), OverwriteMoves())
    ensures var s := OverwriteRun()[12];
            s.cap == 1 && s.pushed == [7, 8] && s.vals == [8] && s.deq == 0 && PopsStuck(s)
  {
    OverwriteIsRun();
    assert [7] + [8] == [7, 8];
    var i, run := 12, OverwriteRun();
    assert run[i] == OverwriteState(i);
  }

  /** A one-cell queue whose head was overwritten. */
  ghost predicate PopsStuck<V>(s: Queue<V>) {
    && s.Shape() && s.cap == 1
    && s.deq + 2 <= s.seqs[0] <= s.enq
    && forall t :: t in s.threads ==>
         && !s.threads[t].OwnsPop() && !s.threads[t].PopCas?
         && (s.threads[t].PopSeq? ==> s.threads[t].pos <= s.deq)
         && (s.threads[t].OwnsPush() ==> s.deq < s.threads[t].pos < s.enq)
         && (s.threads[t].SeekPush() ==> s.threads[t].pos <= s.enq)
  }

  lemma StuckSeek<V>(s: Queue<V>, t: nat, act: Act<V>, s': Queue<V>)
    requires PopsStuck(s) && s.Fresh() && s.enq - s.deq <= QUARTER && Next(s, t, act, s')
    requires !s.threads[t].PushCas? && !s.threads[t].OwnsPush()
    ensures PopsStuck(s') && s'.deq == s.deq && s'.popped == s.popped
  {
    StuckMove(s, t, act, s');
    StuckStays(s, t, s'.threads[t]);
  }

  /** A thread that is looking for a position only moves itself, and never to a claim. */
  lemma StuckMove<V>(s: Queue<V>, t: nat, act: Act<V>, s': Queue<V>)
    requires PopsStuck(s) && s.Fresh() && s.enq - s.deq <= QUARTER && Next(s, t, act, s')
    requires !s.threads[t].PushCas? && !s.threads[t].OwnsPush()
    ensures t in s'.threads
    ensures var ph := s'.threads[t];
            && s' == s.At(t, ph) && !ph.OwnsPop() && !ph.PopCas? && !ph.OwnsPush()
            && (ph.SeekPush() ==> ph.pos <= s.enq) && (ph.PopSeq? ==> ph.pos <= s.deq)
  {
    if s.threads[t].PopSeq? { DiffExact(s.seqs[0], s.threads[t].pos + 1); }
  }

  lemma StuckStays<V>(s: Queue<V>, t: nat, ph: Phase<V>)
    requires PopsStuck(s) && t in s.threads && !ph.OwnsPop() && !ph.PopCas? && !ph.OwnsPush()
    requires (ph.SeekPush() ==> ph.pos <= s.enq) && (ph.PopSeq? ==> ph.pos <= s.deq)
    ensures PopsStuck(s.At(t, ph))
  {
  }

  lemma StuckPush<V>(s: Queue<V>, t: nat, act: Act<V>, s': Queue<V>)
    requires PopsStuck(s) && s.Fresh() && s.enq - s.deq <= QUARTER && Next(s, t, act, s')
    requires s.threads[t].PushCas? || s.threads[t].OwnsPush()
    ensures PopsStuck(s') && s'.deq == s.deq && s'.popped == s.popped
  {
    if s.threads[t].PushCas? { DiffExact(s.enq, s.threads[t].pos); }
  }

  lemma StuckStep<V>(s: Queue<V>, t: nat, act: Act<V>, s': Queue<V>)
    requires PopsStuck(s) && s.Fresh() && s.enq - s.deq <= QUARTER && Next(s, t, act, s')
    ensures PopsStuck(s') && s'.deq == s.deq && s'.popped == s.popped
  {
    if s.threads[t].PushCas? || s.threads[t].OwnsPush() {
      StuckPush(s, t, act, s');
    } else {
      StuckSeek(s, t, act, s');
    }
  }

  lemma TailGrows<V>(s: Queue<V>, t: nat, act: Act<V>, s': Queue<V>)
    requires Next(s, t, act, s')
    ensures s.enq <= s'.enq
  {
  }

  /** From then on, whoever runs and whatever is pushed, every `pop` reloads and retries: over any number
      of steps none claims or returns an element, as long as pushes have not gone a quarter of the counter
      range ahead. Pushes still succeed, each over the last. */
  lemma {:induction false} OneCellStuck<V>(run: seq<Queue<V>>, moves: seq<Move<V>>, k: nat)
    requires IsRun(run, moves) && k <= |moves| && PopsStuck(run[k])
    requires run[|moves|].enq - run[k].deq <= QUARTER
    ensures PopsStuck(run[|moves|]) && run[|moves|].deq == run[k].deq && run[|moves|].popped == run[k].popped
    decreases |moves|
  {
    if k < |moves| {
      var j := |moves| - 1;
      TailGrows(run[j], moves[j].t, moves[j].act, run[j + 1]);
      OneCellStuck(run[..j + 1], moves[..j], k);
      StuckStep(run[j], moves[j].t, moves[j].act, run[j + 1]);
    }
  }

  /** The queue never holds more than its capacity, in every run, exactly for two cells or more. */
  lemma CapacityBound(cap: nat)
    requires cap > 0
    ensures cap >= 2 <==>
            forall run: seq<Queue<int>>, moves: seq<Move<int>> {:trigger IsRun(run, moves)} ::
              IsRun(run, moves) && run[0].cap == cap ==> run[|moves|].enq <= run[|moves|].deq + cap
  {
    if cap >= 2 {
      forall run: seq<Queue<int>>, moves: seq<Move<int>> | IsRun(run, moves) && run[0].cap == cap
        ensures run[|moves|].enq <= run[|moves|].deq + cap
      {
        RunKeeps(run, moves);
      }
    } else {
      OneCellOverwrites();
      assert IsRun(OverwriteRun(), OverwriteMoves());
    }
  }
}
