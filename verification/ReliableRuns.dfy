/** What holds over whole runs of the selective-repeat link. */
module ReliableRuns {
  import opened Reliable
  import opened ReliableLink
  import opened Words

  ghost predicate IsRun(run: seq<Link>, steps: seq<Step>) {
    && |run| == |steps| + 1
    && Init(run[0])
    && forall i :: 0 <= i < |steps| ==> Next(run[i], steps[i], run[i + 1])
  }

  lemma {:induction false} RunKeeps(run: seq<Link>, steps: seq<Step>)
    requires IsRun(run, steps)
    ensures run[|steps|].Inv()
    decreases |steps|
  {
    if steps == [] {
      InitOk(run[0]);
    } else {
      var k := |steps| - 1;
      RunKeeps(run[..k + 1], steps[..k]);
      StepKeeps(run[k], steps[k], run[k + 1]);
    }
  }

  /** What a step has accepted is never forgotten or altered. */
  lemma SubmittedGrows(s: Link, step: Step, s': Link)
    requires s.Inv() && Next(s, step, s')
    ensures forall n :: n in s.submitted ==> n in s'.submitted && s'.submitted[n] == s.submitted[n]
    ensures s.delivered <= s'.delivered
  {
  }

  /** ... so at any two points of a run the later one has all that was submitted and delivered by the
      earlier one, unaltered. */
  lemma {:induction false} HistoryGrows(run: seq<Link>, steps: seq<Step>, k: nat)
    requires IsRun(run, steps) && k <= |steps|
    ensures run[k].delivered <= run[|steps|].delivered
    ensures forall n :: n in run[k].submitted ==>
              n in run[|steps|].submitted && run[|steps|].submitted[n] == run[k].submitted[n]
    decreases |steps|
  {
    if k < |steps| {
      var j := |steps| - 1;
      HistoryGrows(run[..j + 1], steps[..j], k);
      RunKeeps(run[..j + 1], steps[..j]);
      SubmittedGrows(run[j], steps[j], run[j + 1]);
    }
  }

  /** End-to-end delivery: after any run, with frames and acks lost, duplicated and reordered, what
      `drain` has emitted is the payloads submitted for numbers 0, 1, 2, ... in order, unaltered. */
  lemma Delivery(run: seq<Link>, steps: seq<Step>)
    requires IsRun(run, steps)
    ensures var s := run[|steps|];
            forall n: nat :: n < |s.delivered| ==>
              n in s.submitted && s.delivered[n] == DataFrame(n % U32_SIZE, s.submitted[n])
  {
    RunKeeps(run, steps);
  }

  /** Loss recovery: a submitted frame the receiver lacks sits in one slot of the sender, and `tick`
      emits it exactly when that slot is overdue; a slot stamped with time 0 never is. */
  lemma Recovery(run: seq<Link>, steps: seq<Step>, n: nat, nowNs: u64, rtoNs: u64) returns (i: int)
    requires IsRun(run, steps)
    requires var s := run[|steps|]; n in s.submitted && s.submitted[n] != [] && !s.Received(n)
    ensures var s := run[|steps|];
            && 0 <= i < |s.tx.slots| && s.tx.slots[i].len > 0 && s.Number(i) == n
            && (DataFrame(n % U32_SIZE, s.submitted[n]) in s.tx.TickOut(|s.tx.slots|, nowNs, rtoNs)
                <==> s.tx.slots[i].Overdue(nowNs, rtoNs))
  {
    RunKeeps(run, steps);
    var s := run[|steps|];
    assert s.Kept(n);
    i :| 0 <= i < |s.tx.slots| && s.tx.slots[i].len > 0 && s.tx.slots[i].seqNo == n % U32_SIZE;
    WordDistance(n, s.oldest);
    assert s.SlotSent(i) && s.tx.SlotOk(i);
    var f := DataFrame(n % U32_SIZE, s.submitted[n]);
    s.tx.TickOutExact(|s.tx.slots|, nowNs, rtoNs, f);
    if f in s.tx.TickOut(|s.tx.slots|, nowNs, rtoNs) {
      var j :| 0 <= j < |s.tx.slots| && s.tx.slots[j].Overdue(nowNs, rtoNs)
               && f == DataFrame(s.tx.slots[j].seqNo, s.tx.slots[j].Payload());
      assert s.tx.SlotOk(j);
    }
  }
}
