/** The full-window acknowledgement, and how it stops the link for good. */
module ReliableWedge {
  import opened Reliable
  import opened ReliableLink
  import opened ReliableRuns
  import opened Words

  // The sender ignores a base a whole window ahead of its oldest frame, so losing the acknowledgements of
  // one window of frames leaves it with nothing it will ever accept.

  /** The receiver has everything the sender may send, and no older ack is left. */
  ghost predicate Wedged(s: Link) {
    && s.Inv()
    && s.next == s.oldest + |s.tx.slots|
    && s.rx.bits == 0
    && (forall a :: a in s.acks ==> a.base == s.next)
  }

  /** No ack that can still arrive frees anything. */
  lemma WedgedAck(s: Link, a: AckMsg)
    requires Wedged(s) && a in s.acks
    ensures s.tx.Acked(a.frame) == s.tx
  {
    assert s.AckOk(a);
    AckGap(s, a);
    forall k: nat | k < 31
      ensures !BitSet(a.frame.bitmap, k)
    {
      NoBits(k + 1);
    }
    var r := s.tx.Acked(a.frame);
    assert forall i :: 0 <= i < |s.tx.slots| ==> r.slots[i] == s.tx.slots[i];
  }

  lemma WedgedDeliver(s: Link, m: DataMsg)
    requires Wedged(s) && m in s.data && s.next - m.n <= HALF && |m.frame.payload| <= MAX_RELIABLE_PAYLOAD
    ensures s.rx.Accepted(m.frame.seqNo, m.frame.payload) == s.rx
  {
    assert m.n in s.submitted;
    WordDistanceBack(m.n, s.next);
  }

  lemma WedgedSubmit(s: Link, n: nat, payload: seq<u8>, nowNs: u64, s': Link)
    requires Wedged(s) && Next(s, Submit(n, payload, nowNs), s')
    ensures s'.oldest == s.oldest && |s'.tx.slots| == |s.tx.slots|
    ensures s'.submitted == s.submitted
  {
    if !s.tx.SendRefused(n % U32_SIZE) {
      SubmitInWindow(s, n);
      assert n in s.submitted;
    }
  }

  /** Once a full window is received and its earlier acks are lost, no step ever frees a slot,
      accepts a new sequence or delivers a frame again: the full-window ack is ignored. */
  lemma WedgeForever(s: Link, step: Step, s': Link)
    requires Wedged(s) && Next(s, step, s')
    ensures Wedged(s')
    ensures s'.oldest == s.oldest && s'.delivered == s.delivered
    ensures s'.submitted.Keys == s.submitted.Keys
  {
    StepKeeps(s, step, s');
    assert BitSet(0, 0) == false;
    match step
    case Submit(n, payload, nowNs) => WedgedSubmit(s, n, payload, nowNs, s');
    case Deliver(m) => WedgedDeliver(s, m);
    case DeliverAck(a, nowNs) => WedgedAck(s, a);
    case _ =>
  }

  /** The converse. Where the receiver has nothing ready to drain, an ack it builds now and the sender gets
      next frees every frame received so far and opens the window one further, if the receiver is less
      than a full window ahead; and changes nothing at the sender if it is a full window ahead. */
  lemma FreshAck(s: Link, rttSampleNs: u64, nowNs: u64) returns (s1: Link, s2: Link)
    requires s.Inv() && !BitSet(s.rx.bits, 0)
    ensures Next(s, SendAck(rttSampleNs), s1)
    ensures Next(s1, DeliverAck(AckMsg(s.next, s.rx.BuildAck(rttSampleNs)), nowNs), s2) && s2.Inv()
    ensures s.oldest <= s.next <= s.oldest + |s.tx.slots| == s.oldest + |s2.tx.slots|
    ensures s.next < s.oldest + |s.tx.slots| ==>
              && s2.oldest == s.next
              && (forall i :: 0 <= i < |s2.tx.slots| && s2.tx.slots[i].len > 0 ==> !s2.Received(s2.Number(i)))
              && (s.next > s.oldest ==> !s2.tx.SendRefused((s.oldest + |s.tx.slots|) % U32_SIZE))
    ensures s.next == s.oldest + |s.tx.slots| ==> s2.tx == s.tx && s2.oldest == s.oldest
  {
    var a := AckMsg(s.next, s.rx.BuildAck(rttSampleNs));
    s1 := s.(acks := s.acks + {a});
    SendAckKeeps(s, rttSampleNs, s1);
    s2 := s1.(tx := s1.tx.Acked(a.frame),
              oldest := s1.oldest + WrapSub32(s1.tx.NextOldest(a.frame), s1.tx.oldest));
    assert Next(s1, DeliverAck(a, nowNs), s2);
    DeliverAckKeeps(s1, a, nowNs, s2);
    NextInWindow(s);
    AckGap(s1, a);
    if s.next < s.oldest + |s.tx.slots| {
      FreshMoves(s1, a, s2);
      FreshLeaves(s1, a, s2);
      if s.next > s.oldest { WindowOpens(s1, s2); }
    } else {
      FullWindowIgnored(s1, a);
    }
  }

  /** A fresh ack moves the oldest number to the one the receiver waits for ... */
  lemma FreshMoves(s: Link, a: AckMsg, s2: Link)
    requires s.Inv() && a.base == s.next && s.oldest <= s.next < s.oldest + |s.tx.slots|
    requires a.frame == s.rx.BuildAck(a.frame.rttSampleNs) && s.tx.Gap(a.frame) == s.next - s.oldest
    requires s2.oldest == s.oldest + WrapSub32(s.tx.NextOldest(a.frame), s.tx.oldest)
    ensures s2.oldest == s.next
  {
    WordDistance(s.next, s.oldest);
  }

  /** ... and leaves no live slot whose frame the receiver has. */
  lemma FreshLeaves(s: Link, a: AckMsg, s2: Link)
    requires s.Inv() && s2.Inv() && !BitSet(s.rx.bits, 0) && a.base == s.next < s.oldest + |s.tx.slots|
    requires a.frame == s.rx.BuildAck(a.frame.rttSampleNs) && s.tx.Gap(a.frame) == s.next - s.oldest
    requires s2.tx == s.tx.Acked(a.frame) && s2.rx == s.rx && s2.next == s.next && s2.oldest == s.next
    ensures forall i :: 0 <= i < |s2.tx.slots| && s2.tx.slots[i].len > 0 ==> !s2.Received(s2.Number(i))
  {
    forall i | 0 <= i < |s2.tx.slots| && s2.tx.slots[i].len > 0
      ensures !s2.Received(s2.Number(i))
    {
      assert s2.tx.SlotOk(i);
      SameNumber(s.tx.slots[i].seqNo, s.tx.oldest, s2.tx.oldest);
      if s.Received(s.Number(i)) && s.Number(i) != s.next { FreshFrees(s, a, i); }
    }
  }

  /** A fresh ack frees every live slot whose frame the receiver has, but for the one it is ready to drain. */
  lemma FreshFrees(s: Link, a: AckMsg, i: int)
    requires s.Inv() && a.base == s.next < s.oldest + |s.tx.slots|
    requires a.frame == s.rx.BuildAck(a.frame.rttSampleNs) && s.tx.Gap(a.frame) == s.next - s.oldest
    requires 0 <= i < |s.tx.slots| && s.tx.slots[i].len > 0
    requires s.Received(s.Number(i)) && s.Number(i) != s.next
    ensures s.tx.FreedBy(a.frame, i)
  {
    var n := s.Number(i);
    assert s.tx.SlotOk(i);
    s.tx.LiveOffset(i);
    if n > s.next {
      NumberWord(s.oldest, s.tx.slots[i].seqNo);
      WordDistance(n, s.next);
      ShiftedBit(s.rx.bits, n - s.next - 1);
      assert s.tx.Sacked(a.frame, 31, i);
    }
  }

  /** Once the oldest frame is acked, the number a window after it is no longer refused. */
  lemma WindowOpens(s: Link, s2: Link)
    requires s.Inv() && s2.Inv() && s.oldest < s2.oldest == s2.next <= s.oldest + |s.tx.slots|
    requires |s2.tx.slots| == |s.tx.slots| && s2.submitted == s.submitted
    ensures !s2.tx.SendRefused((s.oldest + |s.tx.slots|) % U32_SIZE)
  {
    var n := s.oldest + |s.tx.slots|;
    WordDistance(n, s2.oldest);
    assert n !in s.submitted;
    var i := n % U32_SIZE % |s2.tx.slots|;
    s2.tx.SlotOwner(n % U32_SIZE);
    assert s2.SlotSent(i);
  }

  /** At a full window no slot is freed, by base or by bitmap. */
  lemma FullWindowIgnored(s: Link, a: AckMsg)
    requires s.Inv() && a.base == s.next == s.oldest + |s.tx.slots| && a.frame.baseSeq == s.next % U32_SIZE
    requires s.tx.Gap(a.frame) == |s.tx.slots|
    ensures s.tx.Acked(a.frame) == s.tx
  {
    var r := s.tx.Acked(a.frame);
    forall i | 0 <= i < |s.tx.slots|
      ensures r.slots[i] == s.tx.slots[i]
    {
      if s.tx.Sacked(a.frame, 31, i) { SackedNumber(s, a, i); }
    }
  }

  /** The sender has sent frames 0 to k - 1, the receiver has delivered them, nothing was acked. */
  ghost predicate SentWithoutAcks(s: Link, k: nat) {
    && s.Inv()
    && s.oldest == 0 && s.next == k <= |s.tx.slots|
    && s.rx.bits == 0 && s.acks == {}
    && (forall n :: n in s.submitted <==> 0 <= n < k)
  }

  lemma SendFresh(s: Link, k: nat)
    requires SentWithoutAcks(s, k) && k < |s.tx.slots|
    ensures !s.tx.SendRefused(k)
  {
    WordDistance(k, 0);
    var i := k % |s.tx.slots|;
    ModUnique(k, |s.tx.slots|, 0, k);
    assert s.SlotSent(i);
  }

  /** An empty receiver takes in the frame it waits for and drains it at once. */
  lemma OneFrame(rx: Rx)
    requires rx.Valid() && rx.bits == 0
    ensures var got := rx.Accepted(rx.next, [1]);
            && got.next == rx.next && got.Valid()
            && got.Drained().bits == 0 && |got.DrainOut()| == 1
  {
    NoBits(0);
    var got := rx.Accepted(rx.next, [1]);
    assert got.bits == 1;
    assert got.Shifted().bits == 0;
    assert got.Drained() == got.Shifted();
    assert got.DrainOut() == [DataFrame(got.next, got.slots[0].Payload())];
  }

  lemma RoundSubmit(s: Link, k: nat) returns (s1: Link, m: DataMsg)
    requires SentWithoutAcks(s, k) && k < |s.tx.slots|
    ensures Next(s, Submit(k, [1], 1), s1) && s1.Inv()
    ensures m in s1.data && m == DataMsg(k, DataFrame(k, [1]))
    ensures s1.rx == s.rx && s1.next == k && s1.oldest == 0 && s1.acks == {} && |s1.tx.slots| == |s.tx.slots|
    ensures s1.submitted == s.submitted[k := [1]]
  {
    SendFresh(s, k);
    SizeDivides(|s.tx.slots|);
    m := DataMsg(k, DataFrame(k, [1]));
    s1 := SubmitNext(s, k, [1], m);
    SubmitKeeps(s, k, [1], 1, s1);
  }

  /** A first number that is not refused is retained and put on the wire. */
  lemma SubmitNext(s: Link, k: u32, payload: seq<u8>, m: DataMsg) returns (s1: Link)
    requires s.rx.Valid() && 0 < |s.tx.slots| && s.oldest == 0 && k < HALF && k !in s.submitted
    requires |payload| <= MAX_RELIABLE_PAYLOAD && !s.tx.SendRefused(k) && m == DataMsg(k, DataFrame(k, payload))
    ensures Next(s, Submit(k, payload, 1), s1)
    ensures s1 == s.(tx := s.tx.Sent(k, payload, 1), submitted := s.submitted[k := payload], data := s.data + {m})
    ensures |s1.tx.slots| == |s.tx.slots|
  {
    SmallWord(k);
    s1 := s.(tx := s.tx.Sent(k, payload, 1), submitted := s.submitted[k := payload], data := s.data + {m});
  }

  lemma SmallWord(k: u32)
    ensures k % U32_SIZE == k
  {
  }

  /** The next frame is sent, arrives and is drained. */
  lemma Round(s: Link, k: nat) returns (s1: Link, s2: Link, s3: Link, m: DataMsg)
    requires SentWithoutAcks(s, k) && k < |s.tx.slots|
    ensures Next(s, Submit(k, [1], 1), s1) && Next(s1, Deliver(m), s2) && Next(s2, Drain, s3)
    ensures SentWithoutAcks(s3, k + 1) && |s3.tx.slots| == |s.tx.slots|
  {
    s1, m := RoundSubmit(s, k);
    assert s1.rx.next == k;
    OneFrame(s1.rx);
    var rx := s1.rx.Accepted(k, [1]);
    s2 := s1.(rx := rx);
    DeliverKeeps(s1, m, s2);
    s3 := s2.(rx := rx.Drained(), next := k + 1, delivered := s2.delivered + rx.DrainOut());
    DrainKeeps(s2, s3);
  }

  lemma Start(w: int) returns (s: Link)
    requires IsSize(w)
    ensures Init(s) && SentWithoutAcks(s, 0) && |s.tx.slots| == w
  {
    SizeDivides(w);
    var slots := seq(w, i requires 0 <= i < w => TxSlot(i, 0, ZeroFrame(), 0, 0, 0));
    var tx := Tx(slots, 0);
    forall i | 0 <= i < w
      ensures tx.SlotOk(i)
    {
      ModUnique(i, w, 0, i);
    }
    s := Link(tx, 0, Rx(0, 0, seq(32, _ => EmptySlot())), 0, map[], {}, {}, []);
    InitOk(s);
  }

  lemma {:induction false} RunWithoutAcks(w: int, k: nat) returns (run: seq<Link>, steps: seq<Step>)
    requires IsSize(w) && k <= w
    ensures IsRun(run, steps) && SentWithoutAcks(run[|steps|], k) && |run[|steps|].tx.slots| == w
  {
    if k == 0 {
      var s := Start(w);
      run, steps := [s], [];
    } else {
      var r, t := RunWithoutAcks(w, k - 1);
      var s1, s2, s3, m := Round(r[|t|], k - 1);
      run := r + [s1, s2, s3];
      steps := t + [Submit(k - 1, [1], 1), Deliver(m), Drain];
      forall i | 0 <= i < |steps|
        ensures Next(run[i], steps[i], run[i + 1])
      {
        if i < |t| { assert Next(r[i], t[i], r[i + 1]); }
      }
    }
  }

  /** Every window size can reach the wedge, by losing the acks of one window of frames. */
  lemma WedgeReachable(w: int) returns (run: seq<Link>, steps: seq<Step>)
    requires IsSize(w)
    ensures IsRun(run, steps) && |run[|steps|].tx.slots| == w && Wedged(run[|steps|])
  {
    SizeDivides(w);
    run, steps := RunWithoutAcks(w, w);
  }
}
