/** Sender, receiver and a network that loses, duplicates and reorders frames and acks.

    Each endpoint only sees 32-bit sequence words. The link state also carries the unbounded
    number every word stands for; those numbers guide no step, they only appear in the
    assumption that nothing older than half the sequence space is still travelling.
    `ReliableRuns` has whole runs and `ReliableWedge` the full-window acknowledgement. */
module ReliableLink {
  import opened Words
  import opened Reliable

  const HALF: int := 0x8000_0000

  datatype DataMsg = DataMsg(n: nat, frame: DataFrame)

  datatype AckMsg = AckMsg(base: nat, frame: AckFrame)

  datatype Link = Link(
    tx: Tx, oldest: nat,                  // the sender, and the number of its `oldest` word
    rx: Rx, next: nat,                    // the receiver, and the number of its `next` word
    submitted: map<nat, seq<u8>>,        // what `send` has accepted, by number
    data: set<DataMsg>, acks: set<AckMsg>,  // frames the network may still deliver, any number of times
    delivered: seq<DataFrame>)            // what `drain` has emitted
  {
    predicate Received(n: nat) {
      n < next || (n - next < 32 && BitSet(rx.bits, n - next))
    }

    predicate Retained(n: nat) {
      exists i :: 0 <= i < |tx.slots| && tx.slots[i].len > 0 && tx.slots[i].seqNo == n % U32_SIZE
    }

    /** The number of the frame in slot `i`. */
    function Number(i: int): nat
      requires 0 <= i < |tx.slots|
    {
      oldest + WrapSub32(tx.slots[i].seqNo, tx.oldest)
    }

    ghost predicate Words() {
      && rx.Valid() && 0 < |tx.slots| <= HALF
      && tx.oldest == oldest % U32_SIZE && rx.next == next % U32_SIZE
      && oldest <= next
    }

    /** A retained frame is one that was submitted, unaltered. */
    predicate SlotSent(i: int)
      requires 0 <= i < |tx.slots|
    {
      tx.slots[i].len > 0 ==> Number(i) in submitted && tx.slots[i].Payload() == submitted[Number(i)]
    }

    /** A submitted frame has reached the receiver or is still retained. */
    predicate Kept(n: nat)
      requires n in submitted
    {
      submitted[n] != [] ==> Received(n) || Retained(n)
    }

    ghost predicate SenderOk() {
      && (forall n :: n in submitted ==> n < oldest + |tx.slots| && |submitted[n]| <= MAX_RELIABLE_PAYLOAD)
      && (forall i {:trigger SlotSent(i)} :: 0 <= i < |tx.slots| ==> SlotSent(i))
    }

    /** A buffered frame is one that was submitted, at its place after `next`. */
    predicate Stored(k: nat)
      requires k < 32 && |rx.slots| == 32
    {
      BitSet(rx.bits, k) ==> next + k in submitted && rx.slots[k].Payload() == submitted[next + k]
    }

    ghost predicate ReceiverOk()
      requires |rx.slots| == 32
    {
      && (forall n :: 0 <= n < next ==> n in submitted)
      && (forall k {:trigger Stored(k)} :: 0 <= k < 32 ==> Stored(k))
      && |delivered| == next
      && (forall n :: 0 <= n < next ==> delivered[n] == DataFrame(n % U32_SIZE, submitted[n]))
    }

    ghost predicate DataOk() {
      forall m :: m in data ==> m.n in submitted && m.frame == DataFrame(m.n % U32_SIZE, submitted[m.n])
    }

    ghost predicate AckOk(a: AckMsg) {
      && a.base <= next
      && a.frame.baseSeq == a.base % U32_SIZE
      && (forall k :: 0 <= k < 31 && BitSet(a.frame.bitmap, k) ==> Received(a.base + 1 + k))
    }

    /** No frame is lost. */
    ghost predicate Conserved() {
      forall n {:trigger Kept(n)} :: n in submitted ==> Kept(n)
    }

    ghost predicate AcksOk() {
      forall a :: a in acks ==> AckOk(a)
    }

    ghost predicate Inv() {
      tx.Valid() && Words() && SenderOk() && ReceiverOk() && DataOk() && AcksOk() && Conserved()
    }
  }

  datatype Step =
    | Submit(n: nat, payload: seq<u8>, nowNs: u64)
    | Tick(nowNs: u64, rtoNs: u64)
    | Deliver(m: DataMsg)
    | Drain
    | SendAck(rttSampleNs: u64)
    | DeliverAck(a: AckMsg, nowNs: u64)
    | Drop(keptData: set<DataMsg>, keptAcks: set<AckMsg>)

  ghost predicate Init(s: Link) {
    && s.tx.Valid() && 0 < |s.tx.slots| <= HALF && s.tx.oldest == 0
    && (forall i :: 0 <= i < |s.tx.slots| ==> s.tx.slots[i].len == 0)
    && s.rx == Rx(0, 0, seq(32, _ => EmptySlot()))
    && s.oldest == 0 && s.next == 0
    && s.submitted == map[] && s.data == {} && s.acks == {} && s.delivered == []
  }

  ghost predicate Next(s: Link, step: Step, s': Link) {
    && s.rx.Valid() && 0 < |s.tx.slots|
    && match step
    case Submit(n, payload, nowNs) =>
      // The application gives each sequence one payload, and numbers within half the space.
      && |payload| <= MAX_RELIABLE_PAYLOAD
      && -HALF <= n - s.oldest < HALF
      && (n in s.submitted ==> s.submitted[n] == payload)
      && s' == if s.tx.SendRefused(n % U32_SIZE) then s
               else s.(tx := s.tx.Sent(n % U32_SIZE, payload, nowNs),
                       submitted := s.submitted[n := payload],
                       data := s.data + {DataMsg(n, DataFrame(n % U32_SIZE, payload))})
    case Tick(nowNs, rtoNs) =>
      s' == s.(tx := s.tx.Ticked(nowNs, rtoNs),
               data := s.data + set f | f in s.tx.TickOut(|s.tx.slots|, nowNs, rtoNs)
                                      :: DataMsg(s.oldest + WrapSub32(f.seqNo, s.tx.oldest), f))
    case Deliver(m) =>
      && m in s.data && s.next - m.n <= HALF
      && |m.frame.payload| <= MAX_RELIABLE_PAYLOAD
      && s' == s.(rx := s.rx.Accepted(m.frame.seqNo, m.frame.payload))
    case Drain =>
      s' == s.(rx := s.rx.Drained(), next := s.next + |s.rx.DrainOut()|,
               delivered := s.delivered + s.rx.DrainOut())
    case SendAck(rttSampleNs) =>
      s' == s.(acks := s.acks + {AckMsg(s.next, s.rx.BuildAck(rttSampleNs))})
    case DeliverAck(a, nowNs) =>
      && a in s.acks && s.oldest - a.base <= HALF
      && s' == s.(tx := s.tx.Acked(a.frame),
                  oldest := s.oldest + WrapSub32(s.tx.NextOldest(a.frame), s.tx.oldest))
    case Drop(keptData, keptAcks) =>
      && keptData <= s.data && keptAcks <= s.acks
      && s' == s.(data := keptData, acks := keptAcks)
  }

  // ---- arithmetic between numbers and words ----

  lemma WordDistance(n: nat, o: nat)
    requires o <= n < o + U32_SIZE
    ensures WrapSub32(n % U32_SIZE, o % U32_SIZE) == n - o
  {
    ModSub(n, o, U32_SIZE);
  }

  lemma WordDistanceBack(n: nat, o: nat)
    requires n < o && o - n <= U32_SIZE
    ensures WrapSub32(n % U32_SIZE, o % U32_SIZE) == (U32_SIZE - (o - n)) % U32_SIZE
  {
    ModSub(n, o, U32_SIZE);
    ModAddMul(n - o, U32_SIZE, 1);
  }

  lemma NumberWord(o: nat, s: u32)
    ensures (o + WrapSub32(s, o % U32_SIZE)) % U32_SIZE == s
  {
    SubThenAdd(s, o % U32_SIZE);
    ModAdd(o, WrapSub32(s, o % U32_SIZE), U32_SIZE);
  }

  // ---- every step keeps the invariant, each lemma asking for the parts it needs ----

  /** What the receiver has got does not depend on the sender or the network. */
  lemma SameReceiver(s: Link, s': Link)
    requires s'.rx == s.rx && s'.next == s.next
    ensures forall n: nat :: s'.Received(n) == s.Received(n)
  {
    forall n: nat
      ensures s'.Received(n) == s.Received(n)
    {
    }
  }

  lemma MoreReceived(s: Link, s': Link)
    requires s.next <= s'.next && s'.acks <= s.acks && s.AcksOk()
    requires forall n: nat :: s.Received(n) ==> s'.Received(n)
    ensures s'.AcksOk()
  {
  }

  /** New submissions leave the receiver's side of the invariant alone. */
  lemma MoreSubmitted(s: Link, s': Link)
    requires |s.rx.slots| == 32 && s.ReceiverOk()
    requires s'.rx == s.rx && s'.next == s.next && s'.delivered == s.delivered
    requires forall n :: n in s.submitted ==> n in s'.submitted && s'.submitted[n] == s.submitted[n]
    ensures s'.ReceiverOk()
  {
    forall k: nat | k < 32
      ensures s'.Stored(k)
    {
      assert s.Stored(k);
    }
  }

  /** ... and the receiver's progress leaves the sender's side alone. */
  lemma SameSender(s: Link, s': Link)
    requires s'.tx == s.tx && s'.oldest == s.oldest && s'.submitted == s.submitted && s.SenderOk()
    ensures s'.SenderOk()
    ensures forall n: nat :: s.Retained(n) ==> s'.Retained(n)
  {
    forall i | 0 <= i < |s'.tx.slots|
      ensures s'.SlotSent(i)
    {
      assert s.SlotSent(i);
    }
  }

  lemma StillConserved(s: Link, s': Link)
    requires s.Conserved() && s'.submitted == s.submitted
    requires forall n: nat :: s.Received(n) ==> s'.Received(n)
    requires forall n: nat :: s.Retained(n) && !s'.Received(n) ==> s'.Retained(n)
    ensures s'.Conserved()
  {
    forall n | n in s'.submitted
      ensures s'.Kept(n)
    {
      assert s.Kept(n);
    }
  }

  // -- submitting --

  /** An accepted submission lies in the sender's window. */
  lemma SubmitInWindow(s: Link, n: nat)
    requires s.Words() && -HALF <= n - s.oldest < HALF
    requires WrapSub32(n % U32_SIZE, s.tx.oldest) < |s.tx.slots|
    ensures s.oldest <= n < s.oldest + |s.tx.slots|
    ensures WrapSub32(n % U32_SIZE, s.tx.oldest) == n - s.oldest
  {
    if n < s.oldest { WordDistanceBack(n, s.oldest); } else { WordDistance(n, s.oldest); }
  }

  lemma SubmitSent(s: Link, n: nat, payload: seq<u8>, k: int, slot: TxSlot, s': Link)
    requires s.Words() && s.SenderOk() && 0 <= k < |s.tx.slots|
    requires s.oldest <= n < s.oldest + |s.tx.slots| && |payload| <= MAX_RELIABLE_PAYLOAD
    requires n in s.submitted ==> s.submitted[n] == payload
    requires slot.seqNo == n % U32_SIZE && slot.Payload() == payload
    requires s'.tx == s.tx.(slots := s.tx.slots[k := slot]) && s'.oldest == s.oldest
    requires s'.submitted == s.submitted[n := payload]
    ensures s'.SenderOk()
  {
    WordDistance(n, s.oldest);
    forall i | 0 <= i < |s'.tx.slots|
      ensures s'.SlotSent(i)
    {
      if i != k { assert s.SlotSent(i) && s'.tx.slots[i] == s.tx.slots[i]; }
    }
  }

  lemma SubmitSender(s: Link, n: nat, payload: seq<u8>, nowNs: u64, s': Link)
    requires s.tx.Valid() && s.Words() && s.SenderOk()
    requires Next(s, Submit(n, payload, nowNs), s') && !s.tx.SendRefused(n % U32_SIZE)
    ensures s'.tx.Valid() && s'.Words() && s'.SenderOk()
  {
    var q := n % U32_SIZE;
    SubmitInWindow(s, n);
    s.tx.SendKeepsOthers(q, payload, nowNs);
    s.tx.SlotOwner(q);
    var k := q % |s.tx.slots|;
    SubmitSent(s, n, payload, k, s'.tx.slots[k], s');
  }

  /** Replacing one slot by frame `n` keeps every other submitted frame retained. */
  lemma SlotReplaced(s: Link, n: nat, payload: seq<u8>, k: int, slot: TxSlot, s': Link)
    requires 0 <= k < |s.tx.slots| && s.Words() && s.SenderOk() && s.Conserved()
    requires s.oldest <= n < s.oldest + |s.tx.slots|
    requires s.tx.slots[k].len > 0 ==> s.tx.slots[k].seqNo == n % U32_SIZE
    requires slot.seqNo == n % U32_SIZE && slot.len == |payload|
    requires s'.tx.slots == s.tx.slots[k := slot] && s'.submitted == s.submitted[n := payload]
    requires s'.rx == s.rx && s'.next == s.next
    ensures s'.Conserved()
  {
    forall m | m in s'.submitted
      ensures s'.Kept(m)
    {
      if m == n {
        assert s'.tx.slots[k] == slot;
      } else {
        assert s.Kept(m);
        if s.submitted[m] != [] && !s.Received(m) {
          var i :| 0 <= i < |s.tx.slots| && s.tx.slots[i].len > 0 && s.tx.slots[i].seqNo == m % U32_SIZE;
          if i == k {
            WordDistance(m, s.oldest);
            WordDistance(n, s.oldest);
          }
          assert s'.tx.slots[i].seqNo == m % U32_SIZE && s'.tx.slots[i].len > 0;
        }
      }
    }
  }

  lemma SubmitConserved(s: Link, n: nat, payload: seq<u8>, nowNs: u64, s': Link)
    requires s.tx.Valid() && s.Words() && s.SenderOk() && s.Conserved()
    requires Next(s, Submit(n, payload, nowNs), s') && !s.tx.SendRefused(n % U32_SIZE)
    ensures s'.Conserved()
  {
    var q := n % U32_SIZE;
    SubmitInWindow(s, n);
    s.tx.SlotOwner(q);
    var k := q % |s.tx.slots|;
    SlotReplaced(s, n, payload, k, s'.tx.slots[k], s');
  }

  lemma SubmitData(s: Link, n: nat, payload: seq<u8>, nowNs: u64, s': Link)
    requires s.rx.Valid() && 0 < |s.tx.slots| && s.DataOk()
    requires Next(s, Submit(n, payload, nowNs), s') && !s.tx.SendRefused(n % U32_SIZE)
    ensures forall n :: n in s.submitted ==> n in s'.submitted && s'.submitted[n] == s.submitted[n]
    ensures s'.DataOk()
  {
  }

  lemma SubmitKeeps(s: Link, n: nat, payload: seq<u8>, nowNs: u64, s': Link)
    requires s.Inv() && Next(s, Submit(n, payload, nowNs), s')
    ensures s'.Inv()
  {
    if !s.tx.SendRefused(n % U32_SIZE) {
      SubmitSender(s, n, payload, nowNs, s');
      SubmitConserved(s, n, payload, nowNs, s');
      SubmitData(s, n, payload, nowNs, s');
      MoreSubmitted(s, s');
      SameReceiver(s, s');
      MoreReceived(s, s');
    }
  }

  // -- retransmitting --

  lemma TickSender(s: Link, nowNs: u64, rtoNs: u64, s': Link)
    requires s.tx.Valid() && s.Words() && s.SenderOk() && Next(s, Tick(nowNs, rtoNs), s')
    ensures s'.tx.Valid() && s'.Words() && s'.SenderOk()
    ensures forall n: nat :: s.Retained(n) ==> s'.Retained(n)
  {
    forall i | 0 <= i < |s'.tx.slots|
      ensures s'.tx.SlotOk(i)
    {
      assert s.tx.SlotOk(i);
    }
    forall i | 0 <= i < |s'.tx.slots|
      ensures s'.SlotSent(i)
    {
      assert s.SlotSent(i);
      assert s'.Number(i) == s.Number(i);
    }
    forall n: nat | s.Retained(n)
      ensures s'.Retained(n)
    {
      var i :| 0 <= i < |s.tx.slots| && s.tx.slots[i].len > 0 && s.tx.slots[i].seqNo == n % U32_SIZE;
      assert s'.tx.slots[i].seqNo == n % U32_SIZE && s'.tx.slots[i].len > 0;
    }
  }

  /** A retransmission carries the number and the payload that were submitted. */
  lemma TickData(s: Link, nowNs: u64, rtoNs: u64, f: DataFrame)
    requires s.Words() && s.SenderOk() && f in s.tx.TickOut(|s.tx.slots|, nowNs, rtoNs)
    ensures var n := s.oldest + WrapSub32(f.seqNo, s.tx.oldest);
            n in s.submitted && f == DataFrame(n % U32_SIZE, s.submitted[n])
  {
    var w := |s.tx.slots|;
    s.tx.TickOutExact(w, nowNs, rtoNs, f);
    var i :| 0 <= i < w && s.tx.slots[i].Overdue(nowNs, rtoNs)
             && f == DataFrame(s.tx.slots[i].seqNo, s.tx.slots[i].Payload());
    assert s.SlotSent(i);
    NumberWord(s.oldest, s.tx.slots[i].seqNo);
  }

  lemma TickNetwork(s: Link, nowNs: u64, rtoNs: u64, s': Link)
    requires s.Words() && s.SenderOk() && s.DataOk() && Next(s, Tick(nowNs, rtoNs), s')
    ensures s'.DataOk()
  {
    forall m | m in s'.data
      ensures m.n in s.submitted && m.frame == DataFrame(m.n % U32_SIZE, s.submitted[m.n])
    {
      if m !in s.data { TickData(s, nowNs, rtoNs, m.frame); }
    }
  }

  lemma TickKeeps(s: Link, nowNs: u64, rtoNs: u64, s': Link)
    requires s.Inv() && Next(s, Tick(nowNs, rtoNs), s')
    ensures s'.Inv()
  {
    TickSender(s, nowNs, rtoNs, s');
    TickNetwork(s, nowNs, rtoNs, s');
    SameReceiver(s, s');
    MoreReceived(s, s');
    MoreSubmitted(s, s');
    StillConserved(s, s');
  }

  // -- delivering --

  /** A delivered frame the receiver stores is one it still needs, at its place in the buffer. */
  lemma DeliverPlace(s: Link, m: DataMsg)
    requires s.Words() && s.SenderOk() && s.DataOk() && m in s.data && s.next - m.n <= HALF
    ensures var diff := WrapSub32(m.frame.seqNo, s.rx.next);
            diff < 32 ==> m.n == s.next + diff
  {
    assert m.n in s.submitted;
    if m.n < s.next { WordDistanceBack(m.n, s.next); } else { WordDistance(m.n, s.next); }
  }

  /** Storing frame `next + diff` in slot `diff`. */
  lemma StoreFrame(s: Link, diff: nat, payload: seq<u8>, s': Link)
    requires s.rx.Valid() && s.ReceiverOk() && diff < 32 && |payload| <= MAX_RELIABLE_PAYLOAD
    requires s.next + diff in s.submitted && s.submitted[s.next + diff] == payload
    requires s' == s.(rx := Rx(s.rx.next, OrBit32(s.rx.bits, diff),
                               s.rx.slots[diff := RxSlot(|payload|, Overwrite(s.rx.slots[diff].bytes, payload))]))
    ensures s'.rx.Valid() && s'.ReceiverOk()
    ensures forall n: nat :: s.Received(n) ==> s'.Received(n)
  {
    forall k: nat | k < 32
      ensures BitSet(s'.rx.bits, k) == (k == diff || BitSet(s.rx.bits, k))
      ensures s'.Stored(k)
    {
      OrBitSets(s.rx.bits, diff, k);
      assert s.Stored(k);
      assert s'.rx.slots[diff].Payload() == payload;
    }
  }

  lemma DeliverReceiver(s: Link, m: DataMsg, s': Link)
    requires s.Words() && s.SenderOk() && s.ReceiverOk() && s.DataOk() && Next(s, Deliver(m), s')
    ensures s'.rx.Valid() && s'.rx.next == s.rx.next && s'.ReceiverOk()
    ensures forall n: nat :: s.Received(n) ==> s'.Received(n)
  {
    DeliverPlace(s, m);
    var diff := WrapSub32(m.frame.seqNo, s.rx.next);
    if s'.rx == s.rx {
      SameReceiver(s, s');
    } else {
      StoreFrame(s, diff, m.frame.payload, s');
    }
  }

  lemma DeliverKeeps(s: Link, m: DataMsg, s': Link)
    requires s.Inv() && Next(s, Deliver(m), s')
    ensures s'.Inv()
  {
    DeliverReceiver(s, m, s');
    MoreReceived(s, s');
    SameSender(s, s');
    StillConserved(s, s');
  }

  // -- draining --

  /** One turn of the drain loop, with its counters. */
  function DrainTurn(s: Link): Link
    requires |s.rx.slots| == 32
  {
    s.(rx := s.rx.Shifted(), next := s.next + 1,
       delivered := s.delivered + [DataFrame(s.rx.next, s.rx.slots[0].Payload())])
  }

  /** Shifting the map: bit `k` afterwards is bit `k + 1` before, and no bit 31 appears. */
  lemma ShiftedBit(bits: u32, k: nat)
    requires k < 32
    ensures BitSet(bits / 2, k) == (k < 31 && BitSet(bits, k + 1))
  {
    assert BitSet(bits, k + 1) == BitSet(bits / 2, k);
    if k == 31 {
      Pow2At32();
      HighBitClear(bits, 32);
    }
  }

  lemma ShiftReceived(s: Link)
    requires s.rx.Valid() && BitSet(s.rx.bits, 0)
    ensures forall n: nat :: DrainTurn(s).Received(n) == s.Received(n)
  {
    var s' := DrainTurn(s);
    forall n: nat
      ensures s'.Received(n) == s.Received(n)
    {
      if 0 <= n - s'.next < 32 { ShiftedBit(s.rx.bits, n - s'.next); }
    }
  }

  lemma DrainTurnStored(s: Link, k: nat)
    requires s.rx.Valid() && s.ReceiverOk() && BitSet(s.rx.bits, 0) && k < 32
    ensures DrainTurn(s).rx.Valid() && DrainTurn(s).Stored(k)
  {
    ShiftedBit(s.rx.bits, k);
    if k < 31 {
      assert s.Stored(k + 1);
      assert DrainTurn(s).rx.slots[k] == s.rx.slots[k + 1];
    }
  }

  lemma DrainTurnReceiver(s: Link)
    requires s.rx.Valid() && s.rx.next == s.next % U32_SIZE && s.ReceiverOk() && BitSet(s.rx.bits, 0)
    ensures DrainTurn(s).rx.Valid() && DrainTurn(s).ReceiverOk()
    ensures DrainTurn(s).rx.next == (s.next + 1) % U32_SIZE
  {
    assert s.Stored(0);
    ModAdd(s.next, 1, U32_SIZE);
    forall k: nat | k < 32
      ensures DrainTurn(s).Stored(k)
    {
      DrainTurnStored(s, k);
    }
  }

  lemma DrainTurnKeeps(s: Link)
    requires s.Inv() && BitSet(s.rx.bits, 0)
    ensures DrainTurn(s).Inv()
  {
    var s' := DrainTurn(s);
    ShiftReceived(s);
    DrainTurnReceiver(s);
    MoreReceived(s, s');
    SameSender(s, s');
    StillConserved(s, s');
  }

  lemma {:induction false} DrainKeeps(s: Link, s': Link)
    requires s.Inv() && Next(s, Drain, s')
    ensures s'.Inv()
    decreases s.rx.bits
  {
    if BitSet(s.rx.bits, 0) {
      var t := DrainTurn(s);
      DrainTurnKeeps(s);
      assert s'.delivered == t.delivered + t.rx.DrainOut();
      assert Next(t, Drain, s');
      DrainKeeps(t, s');
    } else {
      assert s'.delivered == s.delivered;
      assert s' == s;
    }
  }

  // -- acknowledgements --

  /** The ack the receiver builds is truthful. */
  lemma BuiltAck(s: Link, rttSampleNs: u64)
    requires s.rx.Valid() && s.rx.next == s.next % U32_SIZE
    ensures s.AckOk(AckMsg(s.next, s.rx.BuildAck(rttSampleNs)))
  {
    var a := AckMsg(s.next, s.rx.BuildAck(rttSampleNs));
    forall k: nat | k < 31 && BitSet(a.frame.bitmap, k)
      ensures s.Received(a.base + 1 + k)
    {
      ShiftedBit(s.rx.bits, k);
    }
  }

  lemma SendAckKeeps(s: Link, rttSampleNs: u64, s': Link)
    requires s.Inv() && Next(s, SendAck(rttSampleNs), s')
    ensures s'.Inv()
  {
    BuiltAck(s, rttSampleNs);
    SameReceiver(s, s');
    forall b | b in s'.acks
      ensures s'.AckOk(b)
    {
      assert s.AckOk(b);
    }
    MoreSubmitted(s, s');
    SameSender(s, s');
    StillConserved(s, s');
  }

  /** How far an ack's base is ahead of the sender, as `on_ack` computes it. */
  lemma AckGap(s: Link, a: AckMsg)
    requires s.Words() && s.SenderOk() && s.ReceiverOk() && s.AckOk(a) && s.oldest - a.base <= HALF
    ensures a.base >= s.oldest ==> s.tx.Gap(a.frame) == a.base - s.oldest
    ensures a.base < s.oldest ==> s.tx.Gap(a.frame) >= |s.tx.slots|
  {
    if a.base < s.oldest {
      WordDistanceBack(a.base, s.oldest);
    } else {
      NextInWindow(s);
      WordDistance(a.base, s.oldest);
    }
  }

  /** A slot a SACK bit frees holds the frame that bit stands for. */
  lemma SackedNumber(s: Link, a: AckMsg, i: int)
    requires s.Words() && a.frame.baseSeq == a.base % U32_SIZE && -HALF <= a.base - s.oldest <= HALF
    requires 0 <= i < |s.tx.slots| && WrapSub32(s.tx.slots[i].seqNo, s.tx.oldest) < |s.tx.slots|
    requires WrapSub32(s.tx.slots[i].seqNo, a.frame.baseSeq) <= 31
    ensures s.Number(i) == a.base + WrapSub32(s.tx.slots[i].seqNo, a.frame.baseSeq)
  {
    Distances(s.tx.slots[i].seqNo, a.frame.baseSeq, s.tx.oldest);
    if a.base < s.oldest { WordDistanceBack(a.base, s.oldest); } else { WordDistance(a.base, s.oldest); }
  }

  /** `on_ack` only frees frames the receiver has. */
  lemma AckFreesReceived(s: Link, a: AckMsg, i: int)
    requires s.tx.Valid() && s.Words() && s.SenderOk() && s.ReceiverOk()
    requires s.AckOk(a) && s.oldest - a.base <= HALF
    requires 0 <= i < |s.tx.slots| && s.tx.slots[i].len > 0 && s.tx.FreedBy(a.frame, i)
    ensures s.Received(s.Number(i))
  {
    AckGap(s, a);
    assert s.tx.SlotOk(i);
    if s.tx.Passed(a.frame, i) {
      s.tx.LiveOffset(i);
      assert s.Number(i) < a.base;
    } else {
      var d := WrapSub32(s.tx.slots[i].seqNo, a.frame.baseSeq);
      NextInWindow(s);
      SackedNumber(s, a, i);
      assert s.Received(a.base + 1 + (d - 1));
    }
  }

  lemma NextInWindow(s: Link)
    requires s.SenderOk() && s.rx.Valid() && s.ReceiverOk()
    ensures s.next <= s.oldest + |s.tx.slots|
  {
    if s.next > 0 { assert s.next - 1 in s.submitted; }
  }

  lemma DeliverAckWords(s: Link, a: AckMsg, nowNs: u64, s': Link)
    requires s.tx.Valid() && s.Words() && s.SenderOk() && s.ReceiverOk() && s.AckOk(a)
    requires Next(s, DeliverAck(a, nowNs), s')
    ensures s'.tx.Valid() && s'.Words() && s'.oldest == s.oldest + WrapSub32(s'.tx.oldest, s.tx.oldest)
  {
    AckGap(s, a);
    AckKeepsValid(s.tx, a.frame);
    NumberWord(s.oldest, s'.tx.oldest);
  }

  /** Moving the origin forward by less than half the space keeps a nearby word's number. */
  lemma SameNumber(x: u32, o: u32, o': u32)
    requires WrapSub32(x, o') < HALF && WrapSub32(o', o) <= HALF
    ensures WrapSub32(x, o) == WrapSub32(o', o) + WrapSub32(x, o')
  {
  }

  /** An ack moves the oldest sequence by less than a window. */
  lemma OldestMoves(tx: Tx, ack: AckFrame)
    requires |tx.slots| > 0
    ensures WrapSub32(tx.NextOldest(ack), tx.oldest) < |tx.slots|
  {
  }

  lemma DeliverAckSender(s: Link, a: AckMsg, nowNs: u64, s': Link)
    requires s.SenderOk() && s'.tx.Valid() && 0 < |s.tx.slots| <= HALF
    requires s'.tx == s.tx.Acked(a.frame) && s'.submitted == s.submitted
    requires s'.oldest == s.oldest + WrapSub32(s'.tx.oldest, s.tx.oldest)
    ensures s'.SenderOk()
  {
    OldestMoves(s.tx, a.frame);
    forall i | 0 <= i < |s'.tx.slots|
      ensures s'.SlotSent(i)
    {
      if s'.tx.slots[i].len > 0 { StillSent(s, s', i); }
    }
  }

  lemma StillSent(s: Link, s': Link, i: nat)
    requires i < |s.tx.slots| == |s'.tx.slots| <= HALF && s'.tx.slots[i] == s.tx.slots[i] && s'.submitted == s.submitted
    requires s.SlotSent(i) && s.tx.slots[i].len > 0 && s'.tx.SlotOk(i)
    requires WrapSub32(s'.tx.oldest, s.tx.oldest) <= HALF
    requires s'.oldest == s.oldest + WrapSub32(s'.tx.oldest, s.tx.oldest)
    ensures s'.SlotSent(i)
  {
    SameNumber(s.tx.slots[i].seqNo, s.tx.oldest, s'.tx.oldest);
  }

  lemma DeliverAckConserved(s: Link, a: AckMsg, nowNs: u64, s': Link)
    requires s.tx.Valid() && s.Words() && s.SenderOk() && s.ReceiverOk() && s.AckOk(a) && s.Conserved()
    requires Next(s, DeliverAck(a, nowNs), s')
    ensures s'.Conserved()
  {
    SameReceiver(s, s');
    forall n | n in s.submitted
      ensures s'.Kept(n)
    {
      assert s.Kept(n);
      if s.submitted[n] != [] && !s.Received(n) { StillRetained(s, a, n, s'.tx); }
    }
  }

  lemma StillRetained(s: Link, a: AckMsg, n: nat, tx': Tx)
    requires s.tx.Valid() && s.Words() && s.SenderOk() && s.ReceiverOk() && s.AckOk(a)
    requires s.oldest - a.base <= HALF && tx' == s.tx.Acked(a.frame)
    requires n in s.submitted && !s.Received(n) && s.Retained(n)
    ensures exists i :: 0 <= i < |tx'.slots| && tx'.slots[i].len > 0 && tx'.slots[i].seqNo == n % U32_SIZE
  {
    var i :| 0 <= i < |s.tx.slots| && s.tx.slots[i].len > 0 && s.tx.slots[i].seqNo == n % U32_SIZE;
    WordDistance(n, s.oldest);
    assert s.Number(i) == n;
    if s.tx.FreedBy(a.frame, i) { AckFreesReceived(s, a, i); }
    assert tx'.slots[i] == s.tx.slots[i];
  }

  lemma DeliverAckKeeps(s: Link, a: AckMsg, nowNs: u64, s': Link)
    requires s.Inv() && Next(s, DeliverAck(a, nowNs), s')
    ensures s'.Inv()
  {
    DeliverAckWords(s, a, nowNs, s');
    DeliverAckSender(s, a, nowNs, s');
    DeliverAckConserved(s, a, nowNs, s');
    SameReceiver(s, s');
    MoreReceived(s, s');
    MoreSubmitted(s, s');
  }

  lemma DropKeeps(s: Link, keptData: set<DataMsg>, keptAcks: set<AckMsg>, s': Link)
    requires s.Inv() && Next(s, Drop(keptData, keptAcks), s')
    ensures s'.Inv()
  {
    SameReceiver(s, s');
    MoreReceived(s, s');
    MoreSubmitted(s, s');
    SameSender(s, s');
    StillConserved(s, s');
  }

  /** Every step of sender, receiver, application or network keeps the invariant. */
  lemma StepKeeps(s: Link, step: Step, s': Link)
    requires s.Inv() && Next(s, step, s')
    ensures s'.Inv()
  {
    match step
    case Submit(n, payload, nowNs) => SubmitKeeps(s, n, payload, nowNs, s');
    case Tick(nowNs, rtoNs) => TickKeeps(s, nowNs, rtoNs, s');
    case Deliver(m) => DeliverKeeps(s, m, s');
    case Drain => DrainKeeps(s, s');
    case SendAck(rtt) => SendAckKeeps(s, rtt, s');
    case DeliverAck(a, nowNs) => DeliverAckKeeps(s, a, nowNs, s');
    case Drop(keptData, keptAcks) => DropKeeps(s, keptData, keptAcks, s');
  }

  lemma InitOk(s: Link)
    requires Init(s)
    ensures s.Inv()
  {
    forall k: nat | k < 32
      ensures s.Stored(k)
    {
      NoBits(k);
    }
  }
}
