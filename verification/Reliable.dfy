/** The selective-repeat control channel: acknowledgement frames, sender and receiver.

    `Tx` and `Rx` are the states of one endpoint with its operations as functions; the classes
    `ReliableTx` and `ReliableRx` update fixed slot arrays in place and are proved against them. */
module Reliable {
  import opened Words

  const MAX_RELIABLE_PAYLOAD: int := 256
  const SACK_BITS: int := 32

  type Frame = b: seq<u8> | |b| == 256 witness seq(256, _ => 0)
  type FrameLen = n: int | 0 <= n <= 256

  /** One frame on the wire: its sequence word and its payload. */
  datatype DataFrame = DataFrame(seqNo: u32, payload: seq<u8>)

  function ZeroFrame(): Frame { seq(256, _ => 0) }

  /** `copy_from_slice` into the front of a fixed frame buffer. */
  function Overwrite(buf: Frame, payload: seq<u8>): Frame
    requires |payload| <= MAX_RELIABLE_PAYLOAD
  {
    payload + buf[|payload|..]
  }

  // ---- acknowledgements ----

  datatype AckFrame = AckFrame(baseSeq: u32, bitmap: u32, rttSampleNs: u64) {
    predicate Covers(s: u32) {
      var diff := WrapSub32(s, baseSeq);
      if diff > 0x7FFF_FFFF then true
      else if diff == 0 then true
      else if diff <= 31 then BitSet(bitmap, diff - 1)
      else false
    }
  }

  // ---- sender state ----

  datatype TxSlot = TxSlot(seqNo: u32, len: FrameLen, bytes: Frame, firstNs: u64, lastNs: u64, resends: u32) {
    function Payload(): seq<u8> { bytes[..len] }

    function Freed(): TxSlot { this.(len := 0, firstNs := 0) }

    /** A retained frame that `tick` will look at. */
    predicate Stamped() { len > 0 && firstNs != 0 }

    predicate Overdue(nowNs: u64, rtoNs: u64) { Stamped() && SatSub(nowNs, lastNs) >= rtoNs }
  }

  datatype TxFull = TxFull(seqNo: u32)

  datatype Tx = Tx(slots: seq<TxSlot>, oldest: u32) {

    /** Every slot sits at its masked index, and a retained one is within the window. */
    ghost predicate Valid() {
      IsSize(|slots|) && forall i :: 0 <= i < |slots| ==> SlotOk(i)
    }

    predicate SlotOk(i: int)
      requires 0 <= i < |slots|
    {
      slots[i].seqNo % |slots| == i && (slots[i].len > 0 ==> WrapSub32(slots[i].seqNo, oldest) < |slots|)
    }

    /** Where index `i` stands in the window, counted from the oldest sequence. */
    function Offset(i: int): nat
      requires 0 <= i < |slots|
    {
      var o := oldest % |slots|;
      if i >= o then i - o else i - o + |slots|
    }

    lemma LiveOffset(i: int)
      requires Valid() && 0 <= i < |slots| && slots[i].len > 0
      ensures WrapSub32(slots[i].seqNo, oldest) == Offset(i)
    {
      assert SlotOk(i);
      WindowOffset(slots[i].seqNo, oldest, |slots|);
    }

    // -- send --

    predicate SendRefused(s: u32)
      requires |slots| > 0
    {
      || WrapSub32(s, oldest) >= |slots|
      || (var slot := slots[s % |slots|]; slot.len > 0 && slot.seqNo == s && slot.firstNs != 0)
    }

    function Sent(s: u32, payload: seq<u8>, nowNs: u64): Tx
      requires |slots| > 0 && |payload| <= MAX_RELIABLE_PAYLOAD
    {
      var i := s % |slots|;
      this.(slots := slots[i := TxSlot(s, |payload|, Overwrite(slots[i].bytes, payload), nowNs, nowNs, 0)])
    }

    /** The only retained frame in the slot of an in-window sequence is that sequence's own. */
    lemma SlotOwner(s: u32)
      requires Valid() && WrapSub32(s, oldest) < |slots|
      ensures 0 <= s % |slots| < |slots|
      ensures slots[s % |slots|].len > 0 ==> slots[s % |slots|].seqNo == s
    {
      var k := s % |slots|;
      WindowOffset(s, oldest, |slots|);
      if slots[k].len > 0 {
        LiveOffset(k);
        SameDistance(slots[k].seqNo, s, oldest);
      }
    }

    /** An accepted `send` keeps the window invariant and overwrites no other retained frame. */
    lemma SendKeepsOthers(s: u32, payload: seq<u8>, nowNs: u64)
      requires Valid() && !SendRefused(s) && |payload| <= MAX_RELIABLE_PAYLOAD
      ensures Sent(s, payload, nowNs).Valid()
      ensures forall i :: 0 <= i < |slots| && slots[i].len > 0 && slots[i].seqNo != s
                          ==> Sent(s, payload, nowNs).slots[i] == slots[i]
    {
      SlotOwner(s);
      var r := Sent(s, payload, nowNs);
      forall i | 0 <= i < |r.slots|
        ensures r.SlotOk(i)
      {
        assert SlotOk(i);
      }
    }

    // -- on_ack --

    /** How far the acknowledged base is ahead of the oldest sequence, as the code computes it. */
    function Gap(ack: AckFrame): u32 { WrapSub32(ack.baseSeq, oldest) }

    function NextOldest(ack: AckFrame): u32 {
      if Gap(ack) < |slots| then ack.baseSeq else oldest
    }

    predicate Passed(ack: AckFrame, i: int)
      requires 0 <= i < |slots|
    {
      Gap(ack) < |slots| && Offset(i) < Gap(ack)
    }

    /** Slot `i` is freed by one of the first `k` SACK bits. */
    predicate Sacked(ack: AckFrame, k: nat, i: int)
      requires 0 <= i < |slots|
    {
      var d := WrapSub32(slots[i].seqNo, ack.baseSeq);
      && 1 <= d <= k
      && BitSet(ack.bitmap, d - 1)
      && WrapSub32(slots[i].seqNo, NextOldest(ack)) < |slots|
      && slots[i].len > 0
    }

    predicate FreedBy(ack: AckFrame, i: int)
      requires 0 <= i < |slots|
    {
      Passed(ack, i) || Sacked(ack, 31, i)
    }

    function Acked(ack: AckFrame): (r: Tx)
      requires |slots| > 0
    {
      Tx(seq(|slots|, i requires 0 <= i < |slots| => if FreedBy(ack, i) then slots[i].Freed() else slots[i]),
         NextOldest(ack))
    }

    /** A SACKed slot is never one the cumulative sweep has passed. */
    lemma SackedNotPassed(ack: AckFrame, i: int)
      requires Valid() && 0 <= i < |slots| && Sacked(ack, 31, i)
      ensures !Passed(ack, i)
    {
      LiveOffset(i);
      SizeDivides(|slots|);
      Distances(slots[i].seqNo, ack.baseSeq, oldest);
    }

    /** The sample is that of the oldest freed frame carrying a timestamp, if there is one. */
    ghost predicate RttOf(ack: AckFrame, nowNs: u64, rtt: Option<u64>)
      requires |slots| > 0
    {
      match rtt
      case None => forall i :: 0 <= i < |slots| && FreedBy(ack, i) ==> !slots[i].Stamped()
      case Some(t) =>
        exists i :: 0 <= i < |slots| && OldestStamped(ack, i) && t == SatSub(nowNs, slots[i].firstNs)
    }

    ghost predicate OldestStamped(ack: AckFrame, i: int)
      requires 0 <= i < |slots|
    {
      && FreedBy(ack, i)
      && slots[i].Stamped()
      && forall j :: 0 <= j < |slots| && FreedBy(ack, j) && slots[j].Stamped() ==> Offset(i) <= Offset(j)
    }

    // -- tick --

    function Ticked(nowNs: u64, rtoNs: u64): Tx {
      this.(slots := seq(|slots|, i requires 0 <= i < |slots| => TickSlot(slots[i], nowNs, rtoNs)))
    }

    static function TickSlot(slot: TxSlot, nowNs: u64, rtoNs: u64): TxSlot {
      if slot.Overdue(nowNs, rtoNs)
      then slot.(lastNs := nowNs, resends := (slot.resends + 1) % U32_SIZE)
      else slot
    }

    /** The frames retransmitted out of the first `n` slots, in slot order. */
    function TickOut(n: nat, nowNs: u64, rtoNs: u64): seq<DataFrame>
      requires n <= |slots|
    {
      if n == 0 then []
      else if slots[n - 1].Overdue(nowNs, rtoNs)
      then TickOut(n - 1, nowNs, rtoNs) + [DataFrame(slots[n - 1].seqNo, slots[n - 1].Payload())]
      else TickOut(n - 1, nowNs, rtoNs)
    }

    /** `tick` emits exactly the overdue frames. */
    lemma {:induction false} TickOutExact(n: nat, nowNs: u64, rtoNs: u64, f: DataFrame)
      requires n <= |slots|
      ensures f in TickOut(n, nowNs, rtoNs)
              <==> exists i :: 0 <= i < n && slots[i].Overdue(nowNs, rtoNs)
                               && f == DataFrame(slots[i].seqNo, slots[i].Payload())
    {
      if n > 0 { TickOutExact(n - 1, nowNs, rtoNs, f); }
    }
  }

  /** The cumulative sweep has freed the first `t` places of the window. */
  ghost predicate Swept(tx: Tx, t: nat, now: seq<TxSlot>)
    requires |tx.slots| == |now|
  {
    forall i :: 0 <= i < |now| ==> now[i] == if tx.Offset(i) < t then tx.slots[i].Freed() else tx.slots[i]
  }

  /** ... and after it the first `k` SACK bits have been applied. */
  ghost predicate SackedUpTo(tx: Tx, ack: AckFrame, k: nat, now: seq<TxSlot>)
    requires |tx.slots| == |now|
  {
    forall i :: 0 <= i < |now|
                ==> now[i] == if tx.Passed(ack, i) || tx.Sacked(ack, k, i) then tx.slots[i].Freed() else tx.slots[i]
  }

  predicate FreedSoFar(tx: Tx, ack: AckFrame, t: nat, k: nat, i: int)
    requires 0 <= i < |tx.slots|
  {
    tx.Offset(i) < t || tx.Sacked(ack, k, i)
  }

  /** `rtt` is the sample of slot `best`, the oldest stamped slot freed so far. */
  ghost predicate SampleSoFar(tx: Tx, ack: AckFrame, t: nat, k: nat, nowNs: u64, rtt: Option<u64>, best: int)
    requires |tx.slots| > 0
  {
    match rtt
    case None => forall i :: 0 <= i < |tx.slots| && FreedSoFar(tx, ack, t, k, i) ==> !tx.slots[i].Stamped()
    case Some(v) =>
      && 0 <= best < |tx.slots|
      && FreedSoFar(tx, ack, t, k, best)
      && tx.slots[best].Stamped()
      && v == SatSub(nowNs, tx.slots[best].firstNs)
      && forall j :: 0 <= j < |tx.slots| && FreedSoFar(tx, ack, t, k, j) && tx.slots[j].Stamped()
                     ==> tx.Offset(best) <= tx.Offset(j)
  }

  lemma SweepTurn(tx: Tx, t: nat, i: int, now: seq<TxSlot>)
    requires |now| == |tx.slots| && 0 <= i < |now| && Swept(tx, t, now)
    requires forall j :: 0 <= j < |tx.slots| ==> (tx.Offset(j) == t <==> j == i)
    ensures now[i] == tx.slots[i] && Swept(tx, t + 1, now[i := now[i].Freed()])
  {
  }

  lemma SweepEnds(tx: Tx, ack: AckFrame, gap: nat, t: nat)
    requires gap == tx.Gap(ack) && t <= gap && (t > 0 ==> gap < |tx.slots|)
    requires gap == t < |tx.slots| || gap - t >= |tx.slots|
    ensures t == if gap < |tx.slots| then gap else 0
    ensures (tx.oldest + t) % U32_SIZE == tx.NextOldest(ack)
  {
  }

  lemma GapShrinks(o: u32, b: u32, t: nat)
    requires t <= WrapSub32(b, o)
    ensures WrapSub32(b, (o + t) % U32_SIZE) == WrapSub32(b, o) - t
  {
  }

  lemma AddOne(o: u32, t: nat)
    ensures ((o + t) % U32_SIZE + 1) % U32_SIZE == (o + t + 1) % U32_SIZE
  {
  }

  lemma SampleSweep(tx: Tx, ack: AckFrame, t: nat, i: int, nowNs: u64,
                    rtt: Option<u64>, best: int, rtt': Option<u64>, best': int)
    requires tx.Valid() && 0 <= i < |tx.slots| && SampleSoFar(tx, ack, t, 0, nowNs, rtt, best)
    requires forall j :: 0 <= j < |tx.slots| ==> (tx.Offset(j) == t <==> j == i)
    requires if rtt.None? && tx.slots[i].Stamped()
             then rtt' == Some(SatSub(nowNs, tx.slots[i].firstNs)) && best' == i
             else rtt' == rtt && best' == best
    ensures SampleSoFar(tx, ack, t + 1, 0, nowNs, rtt', best')
  {
  }

  /** The slot bit `k` of the bitmap frees, if it frees one. */
  predicate SackHit(tx: Tx, ack: AckFrame, k: nat, i: int)
    requires 0 <= i < |tx.slots|
  {
    && BitSet(ack.bitmap, k)
    && tx.slots[i].seqNo == (ack.baseSeq + 1 + k) % U32_SIZE
    && WrapSub32(tx.slots[i].seqNo, tx.NextOldest(ack)) < |tx.slots|
    && tx.slots[i].len > 0
  }

  lemma SackStep(tx: Tx, ack: AckFrame, k: nat, i: int)
    requires k < 31 && 0 <= i < |tx.slots|
    ensures tx.Sacked(ack, k + 1, i) <==> tx.Sacked(ack, k, i) || SackHit(tx, ack, k, i)
    ensures SackHit(tx, ack, k, i) ==> WrapSub32(tx.slots[i].seqNo, ack.baseSeq) == k + 1
  {
    AddThenSub(ack.baseSeq, k + 1);
    if WrapSub32(tx.slots[i].seqNo, ack.baseSeq) == k + 1 {
      SameDistance(tx.slots[i].seqNo, (ack.baseSeq + 1 + k) % U32_SIZE, ack.baseSeq);
    }
  }

  /** What one turn of the SACK loop tests in the current slots is `SackHit` of the entry state. */
  lemma SackTurn(tx: Tx, ack: AckFrame, k: nat, now: seq<TxSlot>, s: u32, i: int)
    requires tx.Valid() && k < 31 && |now| == |tx.slots| && SackedUpTo(tx, ack, k, now)
    requires s == (ack.baseSeq + 1 + k) % U32_SIZE && i == s % |now|
    ensures 0 <= i < |now|
    ensures (BitSet(ack.bitmap, k) && WrapSub32(s, tx.NextOldest(ack)) < |now|
             && now[i].seqNo == s && now[i].len > 0) <==> SackHit(tx, ack, k, i)
    ensures SackHit(tx, ack, k, i) ==> now[i] == tx.slots[i]
    ensures forall j :: 0 <= j < |now| && SackHit(tx, ack, k, j) ==> j == i
  {
    forall j | 0 <= j < |now| && SackHit(tx, ack, k, j)
      ensures j == i
    {
      assert tx.SlotOk(j);
    }
    if SackHit(tx, ack, k, i) {
      SackStep(tx, ack, k, i);
      assert tx.Sacked(ack, 31, i);
      tx.SackedNotPassed(ack, i);
    }
  }

  lemma SackedOneMore(tx: Tx, ack: AckFrame, k: nat, now: seq<TxSlot>, now': seq<TxSlot>, s: u32, i: int)
    requires tx.Valid() && k < 31 && |now| == |tx.slots| && SackedUpTo(tx, ack, k, now)
    requires s == (ack.baseSeq + 1 + k) % U32_SIZE && i == s % |now| && 0 <= i < |now|
    requires now' == if SackHit(tx, ack, k, i) then now[i := now[i].Freed()] else now
    ensures SackedUpTo(tx, ack, k + 1, now')
  {
    SackTurn(tx, ack, k, now, s, i);
    forall j | 0 <= j < |now|
      ensures now'[j] == if tx.Passed(ack, j) || tx.Sacked(ack, k + 1, j) then tx.slots[j].Freed() else tx.slots[j]
    {
      SackStep(tx, ack, k, j);
    }
  }

  lemma SampleSack(tx: Tx, ack: AckFrame, t: nat, k: nat, i: int, nowNs: u64,
                   rtt: Option<u64>, best: int, rtt': Option<u64>, best': int)
    requires tx.Valid() && 0 <= i < |tx.slots| && k < 31 && SampleSoFar(tx, ack, t, k, nowNs, rtt, best)
    requires t == if tx.Gap(ack) < |tx.slots| then tx.Gap(ack) else 0
    requires forall j :: 0 <= j < |tx.slots| && SackHit(tx, ack, k, j) ==> j == i
    requires if rtt.None? && SackHit(tx, ack, k, i) && tx.slots[i].Stamped()
             then rtt' == Some(SatSub(nowNs, tx.slots[i].firstNs)) && best' == i
             else rtt' == rtt && best' == best
    ensures SampleSoFar(tx, ack, t, k + 1, nowNs, rtt', best')
  {
    forall j | 0 <= j < |tx.slots|
      ensures FreedSoFar(tx, ack, t, k + 1, j) <==> FreedSoFar(tx, ack, t, k, j) || SackHit(tx, ack, k, j)
    {
      SackStep(tx, ack, k, j);
    }
    if SackHit(tx, ack, k, i) {
      SackStep(tx, ack, k, i);
      forall j | 0 <= j < |tx.slots| && FreedSoFar(tx, ack, t, k, j)
        ensures tx.Offset(j) < tx.Offset(i)
      {
        SackOrder(tx, ack, t, k, i, j);
      }
    }
  }

  /** A frame a later SACK bit frees is newer than every frame freed before it. */
  lemma SackOrder(tx: Tx, ack: AckFrame, t: nat, k: nat, i: int, j: int)
    requires tx.Valid() && 0 <= i < |tx.slots| && 0 <= j < |tx.slots| && k < 31
    requires tx.Gap(ack) < |tx.slots| ==> t == tx.Gap(ack)
    requires tx.Gap(ack) >= |tx.slots| ==> t == 0
    requires tx.Sacked(ack, k + 1, i) && WrapSub32(tx.slots[i].seqNo, ack.baseSeq) == k + 1
    requires FreedSoFar(tx, ack, t, k, j)
    ensures tx.Offset(j) < tx.Offset(i)
  {
    tx.LiveOffset(i);
    Distances(tx.slots[i].seqNo, ack.baseSeq, tx.oldest);
    if tx.Sacked(ack, k, j) {
      tx.LiveOffset(j);
      Distances(tx.slots[j].seqNo, ack.baseSeq, tx.oldest);
    }
    SizeDivides(|tx.slots|);
  }

  /** The index the sweep visits in its `t`-th turn is the one `t` places into the window. */
  lemma OffsetIndex(tx: Tx, t: nat, i: int)
    requires tx.Valid() && t < |tx.slots| && i == ((tx.oldest + t) % U32_SIZE) % |tx.slots|
    ensures forall j :: 0 <= j < |tx.slots| ==> (tx.Offset(j) == t <==> j == i)
  {
    WindowIndex(tx.oldest, t, |tx.slots|);
  }

  /** Two sequence words at the same distance from a third are equal. */
  lemma SameDistance(a: u32, b: u32, c: u32)
    requires WrapSub32(a, c) == WrapSub32(b, c)
    ensures a == b
  {
  }

  /** What `on_ack` frees, compared with what `Covers` accepts, for every ack and every state. */
  lemma AckExactness(tx: Tx, ack: AckFrame, i: int)
    requires tx.Valid() && 0 <= i < |tx.slots| && tx.slots[i].len > 0
    ensures var s := tx.slots[i].seqNo;
            tx.FreedBy(ack, i) <==>
            && ack.Covers(s)
            && s != ack.baseSeq
            && (tx.Gap(ack) < |tx.slots| || WrapSub32(s, ack.baseSeq) <= 0x7FFF_FFFF)
  {
    tx.LiveOffset(i);
    SizeDivides(|tx.slots|);
    SameWord(tx.slots[i].seqNo, ack.baseSeq);
    if tx.Gap(ack) < |tx.slots| { NearExactness(tx, ack, i); } else { FarExactness(tx, ack, i); }
  }

  lemma SameWord(a: u32, b: u32)
    ensures WrapSub32(a, b) == 0 <==> a == b
  {
  }

  /** With the base inside the window, the sweep frees what lies behind it and the bitmap the rest. */
  lemma NearExactness(tx: Tx, ack: AckFrame, i: int)
    requires 0 <= i < |tx.slots| <= 0x8000_0000 && tx.slots[i].len > 0 && tx.Gap(ack) < |tx.slots|
    requires WrapSub32(tx.slots[i].seqNo, tx.oldest) == tx.Offset(i) < |tx.slots|
    ensures tx.FreedBy(ack, i) <==>
            ack.Covers(tx.slots[i].seqNo) && WrapSub32(tx.slots[i].seqNo, ack.baseSeq) != 0
  {
    Distances(tx.slots[i].seqNo, ack.baseSeq, tx.oldest);
  }

  /** With the base further ahead, only the bitmap frees. */
  lemma FarExactness(tx: Tx, ack: AckFrame, i: int)
    requires 0 <= i < |tx.slots| && tx.slots[i].len > 0 && tx.Gap(ack) >= |tx.slots|
    requires WrapSub32(tx.slots[i].seqNo, tx.oldest) < |tx.slots|
    ensures tx.FreedBy(ack, i) <==>
            ack.Covers(tx.slots[i].seqNo) && 0 < WrapSub32(tx.slots[i].seqNo, ack.baseSeq) <= 0x7FFF_FFFF
  {
  }

  /** `on_ack` keeps the window invariant, whatever the ack says. */
  lemma AckKeepsValid(tx: Tx, ack: AckFrame)
    requires tx.Valid()
    ensures tx.Acked(ack).Valid()
  {
    var r := tx.Acked(ack);
    SizeDivides(|tx.slots|);
    forall i | 0 <= i < |r.slots|
      ensures r.SlotOk(i)
    {
      assert tx.SlotOk(i);
      if r.slots[i].len > 0 {
        tx.LiveOffset(i);
        Distances(tx.slots[i].seqNo, ack.baseSeq, tx.oldest);
      }
    }
  }

  /** The documented rule, that every covered frame is freed, fails exactly when the base is a
      full window or more ahead and some retained frame lies behind it. */
  lemma CoveredFreed(tx: Tx, ack: AckFrame)
    requires tx.Valid()
    ensures (forall i :: 0 <= i < |tx.slots| && tx.slots[i].len > 0 && tx.slots[i].seqNo != ack.baseSeq
                         && ack.Covers(tx.slots[i].seqNo)
               ==> tx.FreedBy(ack, i))
            <==> (tx.Gap(ack) < |tx.slots|
                  || forall i :: 0 <= i < |tx.slots| && tx.slots[i].len > 0
                                 ==> WrapSub32(tx.slots[i].seqNo, ack.baseSeq) <= 0x7FFF_FFFF)
  {
    forall i | 0 <= i < |tx.slots| && tx.slots[i].len > 0
      ensures tx.FreedBy(ack, i) <==>
              (ack.Covers(tx.slots[i].seqNo) && tx.slots[i].seqNo != ack.baseSeq
               && (tx.Gap(ack) < |tx.slots| || WrapSub32(tx.slots[i].seqNo, ack.baseSeq) <= 0x7FFF_FFFF))
    {
      AckExactness(tx, ack, i);
    }
  }

  // ---- receiver state ----

  datatype Accept = InOrder | Buffered | Duplicate | Overflow

  datatype RxSlot = RxSlot(len: FrameLen, bytes: Frame) {
    function Payload(): seq<u8> { bytes[..len] }
  }

  function EmptySlot(): RxSlot { RxSlot(0, ZeroFrame()) }

  datatype Rx = Rx(next: u32, bits: u32, slots: seq<RxSlot>) {
    predicate Valid() { |slots| == 32 }

    function AcceptResult(s: u32): Accept {
      var diff := WrapSub32(s, next);
      if diff > 0x7FFF_FFFF then Duplicate
      else if diff >= 32 then Overflow
      else if BitSet(bits, diff) then Duplicate
      else if diff == 0 then InOrder
      else Buffered
    }

    function Accepted(s: u32, payload: seq<u8>): Rx
      requires Valid() && |payload| <= MAX_RELIABLE_PAYLOAD
    {
      var diff := WrapSub32(s, next);
      if AcceptResult(s).InOrder? || AcceptResult(s).Buffered? then
        Rx(next, OrBit32(bits, diff), slots[diff := RxSlot(|payload|, Overwrite(slots[diff].bytes, payload))])
      else this
    }

    /** One turn of the drain loop: the ready frame leaves and the window moves down. */
    function Shifted(): Rx
      requires Valid()
    {
      Rx((next + 1) % U32_SIZE, bits / 2, slots[1..] + [EmptySlot()])
    }

    function Drained(): Rx
      requires Valid()
      decreases bits
    {
      if BitSet(bits, 0) then Shifted().Drained() else this
    }

    function DrainOut(): seq<DataFrame>
      requires Valid()
      decreases bits
    {
      if BitSet(bits, 0) then [DataFrame(next, slots[0].Payload())] + Shifted().DrainOut() else []
    }

    function BuildAck(rttSampleNs: u64): AckFrame {
      AckFrame(next, bits / 2, rttSampleNs)
    }
  }

  // ---- the endpoints, updating their slot arrays in place ----

  class ReliableTx {
    const slots: array<TxSlot>
    var oldest: u32

    ghost function State(): Tx
      reads this, slots
    {
      Tx(slots[..], oldest)
    }

    ghost predicate Valid()
      reads this, slots
    {
      State().Valid()
    }

    constructor (window: nat)
      requires window <= 0x8000_0000
      ensures Valid() && fresh(slots)
      ensures slots.Length == NextPow2(window) && oldest == 0
      ensures forall i :: 0 <= i < slots.Length ==> slots[i].len == 0
    {
      var w := NextPow2(window);
      SizeDivides(w);
      slots := new TxSlot[w](i => TxSlot(if 0 <= i < U32_SIZE then i else 0, 0, ZeroFrame(), 0, 0, 0));
      oldest := 0;
      new;
      forall i | 0 <= i < w
        ensures State().SlotOk(i)
      {
        ModUnique(i, w, 0, i);
      }
    }

    /** The number of retained frames, all of which lie within the window. */
    method InFlight() returns (n: nat)
      requires Valid()
      ensures n == |set i | 0 <= i < slots.Length && slots[i].len > 0|
    {
      n := 0;
      ghost var seen: set<int> := {};
      for i := 0 to slots.Length
        invariant seen == set j | 0 <= j < i && slots[j].len > 0
        invariant n == |seen|
      {
        assert State().SlotOk(i);
        if slots[i].len > 0 && WrapSub32(slots[i].seqNo, oldest) < slots.Length {
          seen := seen + {i};
          n := n + 1;
        }
      }
      assert seen == set i | 0 <= i < slots.Length && slots[i].len > 0;
    }

    method Send(s: u32, payload: seq<u8>, nowNs: u64) returns (r: Result<(), TxFull>)
      requires Valid() && |payload| <= MAX_RELIABLE_PAYLOAD
      modifies slots
      ensures Valid()
      ensures r == if old(State()).SendRefused(s) then Err(TxFull(s)) else Ok(())
      ensures State() == if r.Ok? then old(State()).Sent(s, payload, nowNs) else old(State())
    {
      SizeDivides(slots.Length);
      if WrapSub32(s, oldest) >= slots.Length {
        return Err(TxFull(s));
      }
      var i := s % slots.Length;
      if slots[i].len > 0 && slots[i].seqNo == s && slots[i].firstNs != 0 {
        return Err(TxFull(s));
      }
      State().SendKeepsOthers(s, payload, nowNs);
      slots[i] := TxSlot(s, |payload|, Overwrite(slots[i].bytes, payload), nowNs, nowNs, 0);
      r := Ok(());
    }

    method OnAck(ack: AckFrame, nowNs: u64) returns (rtt: Option<u64>)
      requires Valid()
      modifies this`oldest, slots
      ensures Valid()
      ensures State() == old(State()).Acked(ack)
      ensures old(State()).RttOf(ack, nowNs, rtt)
    {
      ghost var tx := State();
      ghost var t, best;
      rtt, t, best := AdvanceOldest(ack, nowNs);
      rtt, best := FreeSacked(ack, nowNs, rtt, tx, t, best);
      assert State() == tx.Acked(ack);
      AckKeepsValid(tx, ack);
      SizeDivides(slots.Length);
    }

    /** One turn of the first loop of `on_ack`: frees the oldest slot, taking the sample if there is none yet. */
    method FreeOldest(nowNs: u64, sample: Option<u64>) returns (rtt: Option<u64>)
      requires slots.Length > 0
      modifies this`oldest, slots
      ensures oldest == (old(oldest) + 1) % U32_SIZE
      ensures var i := old(oldest) % slots.Length;
              && slots[..] == old(slots[..])[i := old(slots[i]).Freed()]
              && rtt == if sample.None? && old(slots[i]).len > 0 && old(slots[i]).firstNs != 0
                        then Some(SatSub(nowNs, old(slots[i]).firstNs)) else sample
    {
      var slot := slots[oldest % slots.Length];
      rtt := sample;
      if rtt.None? && slot.len > 0 && slot.firstNs != 0 { rtt := Some(SatSub(nowNs, slot.firstNs)); }
      slots[oldest % slots.Length] := slot.Freed();
      oldest := (oldest + 1) % U32_SIZE;
    }

    /** The first loop of `on_ack`: frees cumulatively, moving `oldest` toward the base. */
    method AdvanceOldest(ack: AckFrame, nowNs: u64) returns (rtt: Option<u64>, ghost t: nat, ghost best: int)
      requires Valid()
      modifies this`oldest, slots
      ensures oldest == old(State()).NextOldest(ack)
      ensures t == if old(State()).Gap(ack) < slots.Length then old(State()).Gap(ack) else 0
      ensures Swept(old(State()), t, slots[..])
      ensures SampleSoFar(old(State()), ack, t, 0, nowNs, rtt, best)
    {
      ghost var tx := State();
      ghost var w := slots.Length;
      ghost var gap := tx.Gap(ack);
      rtt, t, best := None, 0, 0;
      SizeDivides(w);
      while true
        invariant t <= gap && t < w && (t > 0 ==> gap < w)
        invariant oldest == (tx.oldest + t) % U32_SIZE
        invariant Swept(tx, t, slots[..])
        invariant SampleSoFar(tx, ack, t, 0, nowNs, rtt, best)
        decreases w - t
      {
        GapShrinks(tx.oldest, ack.baseSeq, t);
        var diff := WrapSub32(ack.baseSeq, oldest);
        assert diff == gap - t;
        if diff == 0 || diff >= slots.Length {
          SweepEnds(tx, ack, gap, t);
          break;
        }
        var i := oldest % slots.Length;
        WindowIndex(tx.oldest, t, w);
        OffsetIndex(tx, t, i);
        SweepTurn(tx, t, i, slots[..]);
        ghost var was, wasBest := rtt, best;
        if rtt.None? && slots[i].len > 0 && slots[i].firstNs != 0 { best := i; }
        rtt := FreeOldest(nowNs, rtt);
        SampleSweep(tx, ack, t, i, nowNs, was, wasBest, rtt, best);
        AddOne(tx.oldest, t);
        t := t + 1;
      }
    }

    /** The second loop of `on_ack`: frees SACKed stragglers inside the window. */
    method FreeSacked(ack: AckFrame, nowNs: u64, sample: Option<u64>, ghost tx: Tx, ghost t: nat, ghost from: int)
      returns (rtt: Option<u64>, ghost best: int)
      requires tx.Valid() && |tx.slots| == slots.Length && oldest == tx.NextOldest(ack)
      requires t == if tx.Gap(ack) < slots.Length then tx.Gap(ack) else 0
      requires Swept(tx, t, slots[..])
      requires SampleSoFar(tx, ack, t, 0, nowNs, sample, from)
      modifies slots
      ensures SackedUpTo(tx, ack, 31, slots[..])
      ensures SampleSoFar(tx, ack, t, 31, nowNs, rtt, best)
    {
      rtt, best := sample, from;
      for k := 0 to 31
        invariant SackedUpTo(tx, ack, k, slots[..])
        invariant SampleSoFar(tx, ack, t, k, nowNs, rtt, best)
      {
        var s := (ack.baseSeq + 1 + k) % U32_SIZE;
        var i := s % slots.Length;
        SackTurn(tx, ack, k, slots[..], s, i);
        ghost var now, was, wasBest := slots[..], rtt, best;
        if BitSet(ack.bitmap, k) {
          if WrapSub32(s, oldest) < slots.Length {
            var slot := slots[i];
            if slot.seqNo == s && slot.len > 0 {
              if rtt.None? && slot.firstNs != 0 {
                rtt := Some(SatSub(nowNs, slot.firstNs));
                best := i;
              }
              slots[i] := slot.Freed();
            }
          }
        }
        SackedOneMore(tx, ack, k, now, slots[..], s, i);
        SampleSack(tx, ack, t, k, i, nowNs, was, wasBest, rtt, best);
      }
    }

    method Tick(nowNs: u64, rtoNs: u64) returns (sent: nat, out: seq<DataFrame>)
      requires Valid()
      modifies slots
      ensures Valid()
      ensures State() == old(State()).Ticked(nowNs, rtoNs)
      ensures out == old(State()).TickOut(slots.Length, nowNs, rtoNs) && sent == |out|
    {
      sent, out := 0, [];
      ghost var tx := State();
      for i := 0 to slots.Length
        invariant forall j :: 0 <= j < i ==> slots[j] == Tx.TickSlot(tx.slots[j], nowNs, rtoNs)
        invariant forall j :: i <= j < slots.Length ==> slots[j] == tx.slots[j]
        invariant out == tx.TickOut(i, nowNs, rtoNs) && sent == |out|
      {
        var slot := slots[i];
        if slot.len == 0 || slot.firstNs == 0 {
          continue;
        }
        if SatSub(nowNs, slot.lastNs) >= rtoNs {
          slots[i] := slot.(lastNs := nowNs, resends := (slot.resends + 1) % U32_SIZE);
          sent := sent + 1;
          out := out + [DataFrame(slot.seqNo, slot.bytes[..slot.len])];
        }
      }
      assert State() == tx.Ticked(nowNs, rtoNs);
      forall i | 0 <= i < slots.Length
        ensures State().SlotOk(i)
      {
        assert tx.SlotOk(i);
      }
    }
  }

  class ReliableRx {
    var next: u32
    var bits: u32
    const slots: array<RxSlot>

    ghost function State(): Rx
      reads this, slots
    {
      Rx(next, bits, slots[..])
    }

    ghost predicate Valid()
      reads this, slots
    {
      slots.Length == 32
    }

    constructor ()
      ensures Valid() && fresh(slots)
      ensures State() == Rx(0, 0, seq(32, _ => EmptySlot()))
    {
      next, bits := 0, 0;
      slots := new RxSlot[32](_ => EmptySlot());
      new;
      assert slots[..] == seq(32, _ => EmptySlot());
    }

    method Accept(s: u32, payload: seq<u8>) returns (r: Accept)
      requires Valid() && |payload| <= MAX_RELIABLE_PAYLOAD
      modifies this, slots
      ensures Valid()
      ensures r == old(State()).AcceptResult(s)
      ensures State() == old(State()).Accepted(s, payload)
    {
      var diff := WrapSub32(s, next);
      if diff > 0x7FFF_FFFF { return Duplicate; }
      if diff >= SACK_BITS { return Overflow; }
      if BitSet(bits, diff) { return Duplicate; }
      slots[diff] := RxSlot(|payload|, Overwrite(slots[diff].bytes, payload));
      bits := OrBit32(bits, diff);
      r := if diff == 0 then InOrder else Buffered;
    }

    /** Moves every slot down by one and empties the last. */
    method ShiftSlots()
      requires Valid()
      modifies slots
      ensures slots[..] == old(slots[..])[1..] + [EmptySlot()]
    {
      for i := 0 to 31
        invariant forall j :: 0 <= j < i ==> slots[j] == old(slots[j + 1])
        invariant forall j :: i < j < 32 ==> slots[j] == old(slots[j])
      {
        var taken := slots[i + 1];
        slots[i + 1] := EmptySlot();
        slots[i] := taken;
      }
      slots[31] := EmptySlot();
    }

    method Drain() returns (delivered: nat, out: seq<DataFrame>)
      requires Valid()
      modifies this, slots
      ensures Valid()
      ensures State() == old(State()).Drained()
      ensures out == old(State()).DrainOut() && delivered == |out|
    {
      delivered, out := 0, [];
      while BitSet(bits, 0)
        invariant Valid()
        invariant State().Drained() == old(State()).Drained()
        invariant out + State().DrainOut() == old(State()).DrainOut()
        invariant delivered == |out|
        decreases bits
      {
        ghost var was, before := State(), out;
        var len := slots[0].len;
        out := out + [DataFrame(next, slots[0].bytes[..len])];
        Shift();
        delivered := delivered + 1;
        OneDrained(was, before, out);
      }
    }

    /** One turn of `drain`: everything moves down by one. */
    method Shift()
      requires Valid()
      modifies this, slots
      ensures Valid() && State() == old(State()).Shifted()
    {
      ShiftSlots();
      bits := bits / 2;
      next := (next + 1) % U32_SIZE;
    }

    static lemma OneDrained(was: Rx, before: seq<DataFrame>, out: seq<DataFrame>)
      requires was.Valid() && BitSet(was.bits, 0) && out == before + [DataFrame(was.next, was.slots[0].Payload())]
      ensures was.Shifted().Drained() == was.Drained() && was.Shifted().bits < was.bits
      ensures out + was.Shifted().DrainOut() == before + was.DrainOut()
    {
      Appended(before, DataFrame(was.next, was.slots[0].Payload()), was.Shifted().DrainOut());
    }

    static lemma Appended(before: seq<DataFrame>, f: DataFrame, rest: seq<DataFrame>)
      ensures (before + [f]) + rest == before + ([f] + rest)
    {
    }

    method BuildAck(rttSampleNs: u64) returns (ack: AckFrame)
      requires Valid()
      ensures ack == State().BuildAck(rttSampleNs)
    {
      ack := AckFrame(next, bits / 2, rttSampleNs);
    }
  }
}
