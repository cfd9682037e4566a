/** The bounded multi-producer multi-consumer queue, at the grain of single atomic steps.

    Every load, compare-and-swap, cell write and publish of `push` and `pop` is one step, and any
    number of threads interleave. Memory is sequentially consistent. Positions and cell sequences
    are kept as unbounded counters, but every test the code makes sees them only modulo 2^64.
    `MpmcRuns` has whole runs and `MpmcOneCell` the queue of a single cell. */
module Mpmc {
  import opened Words

  /** `pos & (cap - 1)`: the cell of a position (see `CellOfWord`). */
  function Cell(p: nat, cap: nat): (c: nat)
    requires cap > 0
    ensures c < cap
    decreases p
  {
    if p < cap then p else Cell(p - cap, cap)
  }

  lemma {:induction false} CellResidue(p: nat, cap: nat)
    requires cap > 0
    ensures Cell(p, cap) == p % cap
    decreases p
  {
    if p < cap {
      ModUnique(p, cap, 0, p);
    } else {
      CellResidue(p - cap, cap);
      ModAddMul(p - cap, cap, 1);
    }
  }

  /** Masking the wrapped word gives the same cell as the unbounded position. */
  lemma CellOfWord(p: nat, k: nat)
    requires k <= 64
    ensures Cell(p, Pow2(k)) == (p % U64_SIZE) % Pow2(k)
  {
    var cap := Pow2(k);
    Pow2At32();
    Pow2Divides(k, 64);
    CellResidue(p, cap);
    ModMod(p, U64_SIZE, cap);
  }

  /** Positions less than a lap apart use different cells. */
  lemma {:induction false} CellNear(p: nat, q: nat, cap: nat)
    requires p < q < p + cap
    ensures Cell(p, cap) != Cell(q, cap)
    decreases p
  {
    if p >= cap { CellNear(p - cap, q - cap, cap); }
  }

  const HALF: int := 0x8000_0000_0000_0000
  const QUARTER: int := 0x4000_0000_0000_0000

  // A boxed slice of cells of at least 8 bytes is at most 2^63 - 1 bytes long.
  const MAX_CELLS: int := 0x1000_0000_0000_0000

  /** `a.wrapping_sub(b) as isize` on the words of two counters. */
  function SignedDiff(a: nat, b: nat): int {
    var d := (a % U64_SIZE - b % U64_SIZE) % U64_SIZE;
    if d < HALF then d else d - U64_SIZE
  }

  lemma DiffExact(a: nat, b: nat)
    requires -HALF <= a - b < HALF
    ensures SignedDiff(a, b) == a - b
    ensures a % U64_SIZE == b % U64_SIZE <==> a == b
  {
    ModSub(a, b, U64_SIZE);
    if a >= b { ModUnique(a - b, U64_SIZE, 0, a - b); } else { ModUnique(a - b, U64_SIZE, -1, a - b + U64_SIZE); }
  }

  /** Where a thread is in its call: the next atomic step it will take. */
  datatype Phase<V> =
    | Idle
    | PushLoad(v: V)             // load `enqueue_pos`
    | PushSeq(v: V, pos: nat)    // load the cell's sequence and compare
    | PushCas(v: V, pos: nat)    // claim `pos`
    | PushWrite(v: V, pos: nat)  // fill the claimed cell
    | PushPublish(v: V, pos: nat)
    | PopLoad
    | PopSeq(pos: nat)
    | PopCas(pos: nat)
    | PopRead(pos: nat)
    | PopRelease(v: V, pos: nat)
  {
    /** The thread owns the cell of `pos`, to fill it or to empty it. */
    predicate OwnsPush() { PushWrite? || PushPublish? }

    predicate OwnsPop() { PopRead? || PopRelease? }

    predicate Pushing(p: nat) { OwnsPush() && pos == p }

    predicate Popping(p: nat) { OwnsPop() && pos == p }

    /** A position read from `enqueue_pos` and not yet claimed. */
    predicate SeekPush() { PushSeq? || PushCas? }

    predicate SeekPop() { PopSeq? || PopCas? }
  }

  datatype Queue<V> = Queue(
    cap: nat,
    seqs: seq<nat>, vals: seq<V>,    // the cells
    enq: nat, deq: nat,              // `enqueue_pos`, `dequeue_pos`
    threads: map<nat, Phase<V>>,
    pushed: seq<V>,                  // the value claimed for each position, in claim order
    popped: map<nat, V>)             // the value returned for each position
  {
    function CellOf(p: nat): nat
      requires cap > 0
    {
      Cell(p, cap)
    }

    ghost predicate Shape() {
      cap > 0 && |seqs| == cap && |vals| == cap
    }

    function At(t: nat, ph: Phase<V>): Queue<V> { this.(threads := threads[t := ph]) }

    /** The cells fit in memory, and no pending position is overtaken by a quarter of the counter
        range. */
    ghost predicate Fresh() {
      && cap <= MAX_CELLS
      && forall t :: t in threads ==>
           && (threads[t].SeekPush() ==> enq - threads[t].pos <= QUARTER)
           && (threads[t].SeekPop() ==> deq - threads[t].pos <= QUARTER)
    }
  }

  datatype Act<V> = StartPush(v: V) | StartPop | Go | SpuriousFail

  /** Thread `t` takes one step. */
  ghost predicate Next<V>(s: Queue<V>, t: nat, act: Act<V>, s': Queue<V>) {
    && s.Shape() && t in s.threads
    && match (s.threads[t], act)
       case (Idle, StartPush(v)) => s' == s.At(t, PushLoad(v))
       case (Idle, StartPop) => s' == s.At(t, PopLoad)
       case (PushLoad(v), Go) => s' == s.At(t, PushSeq(v, s.enq))
       case (PushSeq(v, pos), Go) =>
         var diff := SignedDiff(s.seqs[s.CellOf(pos)], pos);
         s' == s.At(t, if diff == 0 then PushCas(v, pos) else if diff < 0 then Idle else PushLoad(v))
       case (PushCas(v, pos), Go) =>
         if s.enq % U64_SIZE == pos % U64_SIZE
         then s' == s.At(t, PushWrite(v, pos)).(enq := s.enq + 1, pushed := s.pushed + [v])
         else s' == s.At(t, PushSeq(v, s.enq))
       case (PushCas(v, pos), SpuriousFail) => s' == s.At(t, PushSeq(v, s.enq))
       case (PushWrite(v, pos), Go) =>
         s' == s.At(t, PushPublish(v, pos)).(vals := s.vals[s.CellOf(pos) := v])
       case (PushPublish(v, pos), Go) =>
         s' == s.At(t, Idle).(seqs := s.seqs[s.CellOf(pos) := pos + 1])
       case (PopLoad, Go) => s' == s.At(t, PopSeq(s.deq))
       case (PopSeq(pos), Go) =>
         var diff := SignedDiff(s.seqs[s.CellOf(pos)], pos + 1);
         s' == s.At(t, if diff == 0 then PopCas(pos) else if diff < 0 then Idle else PopLoad)
       case (PopCas(pos), Go) =>
         if s.deq % U64_SIZE == pos % U64_SIZE
         then s' == s.At(t, PopRead(pos)).(deq := s.deq + 1)
         else s' == s.At(t, PopSeq(s.deq))
       case (PopCas(pos), SpuriousFail) => s' == s.At(t, PopSeq(s.deq))
       case (PopRead(pos), Go) => s' == s.At(t, PopRelease(s.vals[s.CellOf(pos)], pos))
       case (PopRelease(v, pos), Go) =>
         s' == s.At(t, Idle).(seqs := s.seqs[s.CellOf(pos) := pos + s.cap], popped := s.popped[pos := v])
       case _ => false
  }

  ghost predicate Init<V>(s: Queue<V>) {
    && s.Shape()
    && (forall i :: 0 <= i < s.cap ==> s.seqs[i] == i)
    && s.enq == 0 && s.deq == 0
    && (forall t :: t in s.threads ==> s.threads[t].Idle?)
    && s.pushed == [] && s.popped == map[]
  }

  // ---- the invariant ----

  /** Some thread has claimed `p` and not yet published it. */
  ghost predicate PushClaimed<V>(s: Queue<V>, p: nat) {
    exists t :: t in s.threads && s.threads[t].Pushing(p)
  }

  /** Some thread has claimed `p` and not yet released its cell. */
  ghost predicate PopClaimed<V>(s: Queue<V>, p: nat) {
    exists t :: t in s.threads && s.threads[t].Popping(p)
  }

  /** The positions whose cell has not yet been claimed for the next lap. */
  predicate InLap<V>(s: Queue<V>, p: nat) {
    p < s.enq <= p + s.cap
  }

  /** What the cell of a claimed position can hold. */
  ghost predicate CellOk<V>(s: Queue<V>, p: nat)
    requires s.Shape() && p < |s.pushed|
  {
    var c := s.CellOf(p);
    if p >= s.deq then
      || (s.seqs[c] == p && PushClaimed(s, p))
      || (s.seqs[c] == p + 1 && s.vals[c] == s.pushed[p])
    else
      || (s.seqs[c] == p + 1 && s.vals[c] == s.pushed[p] && PopClaimed(s, p))
      || s.seqs[c] == p + s.cap
  }

  /** A cell no push has claimed yet still carries its initial sequence. */
  ghost predicate VirginOk<V>(s: Queue<V>, p: nat)
    requires s.Shape()
  {
    s.enq <= p < s.cap ==> s.seqs[s.CellOf(p)] == p
  }

  ghost predicate ThreadOk<V>(s: Queue<V>, t: nat)
    requires s.Shape() && t in s.threads
  {
    match s.threads[t]
    case PushSeq(v, pos) => pos <= s.enq
    case PushCas(v, pos) => pos <= s.enq && (pos == s.enq ==> s.seqs[s.CellOf(pos)] == pos)
    case PushWrite(v, pos) =>
      InLap(s, pos) && s.deq <= pos < |s.pushed| && s.seqs[s.CellOf(pos)] == pos && s.pushed[pos] == v
    case PushPublish(v, pos) =>
      && InLap(s, pos) && s.deq <= pos < |s.pushed| && s.seqs[s.CellOf(pos)] == pos && s.pushed[pos] == v
      && s.vals[s.CellOf(pos)] == v
    case PopSeq(pos) => pos <= s.deq
    case PopCas(pos) => pos <= s.deq && (pos == s.deq ==> s.seqs[s.CellOf(pos)] == pos + 1)
    case PopRead(pos) =>
      && InLap(s, pos) && pos < s.deq && pos < |s.pushed| && pos !in s.popped
      && s.seqs[s.CellOf(pos)] == pos + 1 && s.vals[s.CellOf(pos)] == s.pushed[pos]
    case PopRelease(v, pos) =>
      && InLap(s, pos) && pos < s.deq && pos < |s.pushed| && pos !in s.popped
      && s.seqs[s.CellOf(pos)] == pos + 1 && v == s.pushed[pos]
    case _ => true
  }

  /** Two threads do not own one cell. */
  ghost predicate Apart<V>(s: Queue<V>, t: nat, u: nat)
    requires t in s.threads && u in s.threads
  {
    && (s.threads[t].OwnsPush() && s.threads[u].OwnsPush() ==> s.threads[t].pos != s.threads[u].pos)
    && (s.threads[t].OwnsPop() && s.threads[u].OwnsPop() ==> s.threads[t].pos != s.threads[u].pos)
  }

  ghost predicate Exclusive<V>(s: Queue<V>) {
    forall t, u {:trigger Apart(s, t, u)} :: t in s.threads && u in s.threads && t != u ==> Apart(s, t, u)
  }

  ghost predicate Bounds<V>(s: Queue<V>) {
    s.Shape() && s.deq <= s.enq <= s.deq + s.cap && |s.pushed| == s.enq
  }

  /** A claimed pop has returned the value pushed at its position, or is still under way. */
  ghost predicate PoppedOk<V>(s: Queue<V>, p: nat)
    requires p < |s.pushed|
  {
    if p in s.popped then s.popped[p] == s.pushed[p] else PopClaimed(s, p)
  }

  ghost predicate CellsOk<V>(s: Queue<V>)
    requires s.Shape() && |s.pushed| == s.enq
  {
    && (forall p: nat {:trigger CellOk(s, p)} :: InLap(s, p) ==> CellOk(s, p))
    && (forall p: nat {:trigger VirginOk(s, p)} :: VirginOk(s, p))
  }

  ghost predicate ThreadsOk<V>(s: Queue<V>)
    requires s.Shape()
  {
    (forall t {:trigger ThreadOk(s, t)} :: t in s.threads ==> ThreadOk(s, t)) && Exclusive(s)
  }

  ghost predicate PopsOk<V>(s: Queue<V>)
    requires s.deq <= s.enq == |s.pushed|
  {
    && (forall p: nat {:trigger PoppedOk(s, p)} :: p < s.deq ==> PoppedOk(s, p))
    && (forall p :: p in s.popped ==> p < s.deq)
  }

  ghost predicate Inv<V>(s: Queue<V>) {
    Bounds(s) && CellsOk(s) && ThreadsOk(s) && PopsOk(s)
  }

  // ---- the cells at the two ends ----

  lemma CellSmall(p: nat, cap: nat)
    requires p < cap
    ensures Cell(p, cap) == p
  {
  }

  /** What the cell of any position up to the tail can hold. */
  lemma SeqRange<V>(s: Queue<V>, p: nat)
    requires Inv(s) && p <= s.enq
    ensures p < s.enq ==> s.seqs[s.CellOf(p)] >= p
    ensures p < s.deq ==> s.seqs[s.CellOf(p)] >= p + 1
    ensures p == s.enq ==> s.seqs[s.CellOf(p)] <= p
    ensures p <= s.seqs[s.CellOf(p)] + s.cap && s.seqs[s.CellOf(p)] <= s.enq + s.cap
    decreases s.enq - p
  {
    if p == s.enq {
      if p >= s.cap { assert CellOk(s, p - s.cap); } else { assert VirginOk(s, p); }
    } else if p + s.cap >= s.enq {
      assert InLap(s, p) && CellOk(s, p);
    } else {
      SeqRange(s, p + s.cap);
    }
  }

  /** Claiming the tail is safe: "published at p" and "free for p + cap" differ, or, with a single
      cell, everything claimed so far has been returned. */
  ghost predicate Roomy<V>(s: Queue<V>) {
    s.cap >= 2 || forall p :: 0 <= p < s.enq ==> p in s.popped
  }

  /** A free tail cell: the queue has room, and nobody still owns the cell one lap back. */
  lemma TailCell<V>(s: Queue<V>)
    requires Inv(s) && Roomy(s) && s.seqs[s.CellOf(s.enq)] == s.enq
    ensures s.enq < s.deq + s.cap
    ensures forall t :: t in s.threads && s.enq >= s.cap
                        ==> !s.threads[t].Pushing(s.enq - s.cap) && !s.threads[t].Popping(s.enq - s.cap)
  {
    if s.enq >= s.cap {
      var p := s.enq - s.cap;
      assert CellOk(s, p);
      assert s.cap >= 2 || p in s.popped;
      forall t | t in s.threads
        ensures !s.threads[t].Pushing(p) && !s.threads[t].Popping(p)
      {
        assert ThreadOk(s, t);
      }
    }
  }

  /** A published head cell: there is an element, and it is the one pushed at that position. */
  lemma HeadCell<V>(s: Queue<V>)
    requires Inv(s) && s.seqs[s.CellOf(s.deq)] == s.deq + 1
    ensures s.deq < s.enq && s.vals[s.CellOf(s.deq)] == s.pushed[s.deq]
  {
    SeqRange(s, s.deq);
    assert CellOk(s, s.deq);
  }

  // ---- each step keeps the invariant ----

  /** A thread that owns no cell moves to another phase that owns none. */
  lemma Relabel<V>(s: Queue<V>, t: nat, ph: Phase<V>, s': Queue<V>)
    requires Inv(s) && t in s.threads && s' == s.At(t, ph)
    requires !s.threads[t].OwnsPush() && !s.threads[t].OwnsPop() && !ph.OwnsPush() && !ph.OwnsPop()
    requires ThreadOk(s', t)
    ensures Inv(s')
  {
    RelabelCells(s, t, ph, s');
    forall u | u in s'.threads
      ensures ThreadOk(s', u)
    {
      if u != t { assert ThreadOk(s, u); }
    }
    forall u, w | u in s'.threads && w in s'.threads && u != w
      ensures Apart(s', u, w)
    {
      assert Apart(s, u, w);
    }
  }

  lemma RelabelCells<V>(s: Queue<V>, t: nat, ph: Phase<V>, s': Queue<V>)
    requires Inv(s) && t in s.threads && s' == s.At(t, ph)
    requires !s.threads[t].OwnsPush() && !s.threads[t].OwnsPop() && !ph.OwnsPush() && !ph.OwnsPop()
    ensures CellsOk(s') && PopsOk(s')
  {
    forall p: nat | InLap(s', p)
      ensures CellOk(s', p)
    {
      assert CellOk(s, p);
      OtherClaims(s, s', t, p);
    }
    forall p: nat
      ensures VirginOk(s', p)
    {
      assert VirginOk(s, p);
    }
    forall p: nat | p < s'.deq
      ensures PoppedOk(s', p)
    {
      assert PoppedOk(s, p);
      OtherClaims(s, s', t, p);
    }
  }

  /** Claims by other threads survive a change of thread `t`. */
  lemma OtherClaims<V>(s: Queue<V>, s': Queue<V>, t: nat, p: nat)
    requires t in s.threads && t in s'.threads && s'.threads == s.threads[t := s'.threads[t]]
    ensures PushClaimed(s, p) && (s.threads[t].Pushing(p) ==> s'.threads[t].Pushing(p)) ==> PushClaimed(s', p)
    ensures PopClaimed(s, p) && (s.threads[t].Popping(p) ==> s'.threads[t].Popping(p)) ==> PopClaimed(s', p)
  {
    if PushClaimed(s, p) && (s.threads[t].Pushing(p) ==> s'.threads[t].Pushing(p)) {
      var u :| u in s.threads && s.threads[u].Pushing(p);
      assert s'.threads[u].Pushing(p);
    }
    if PopClaimed(s, p) && (s.threads[t].Popping(p) ==> s'.threads[t].Popping(p)) {
      var u :| u in s.threads && s.threads[u].Popping(p);
      assert s'.threads[u].Popping(p);
    }
  }

  /** Different positions of one lap have different cells. */
  lemma LapDistinct<V>(s: Queue<V>, p: nat, q: nat)
    requires s.Shape() && InLap(s, p) && InLap(s, q)
    ensures p != q ==> s.CellOf(p) != s.CellOf(q)
  {
    if p < q { CellNear(p, q, s.cap); } else if q < p { CellNear(q, p, s.cap); }
  }

  /** The cell a thread owns is not one another thread owns. */
  lemma OwnersApart<V>(s: Queue<V>, t: nat, u: nat)
    requires Inv(s) && t in s.threads && u in s.threads && t != u
    requires s.threads[t].OwnsPush() || s.threads[t].OwnsPop()
    requires s.threads[u].OwnsPush() || s.threads[u].OwnsPop()
    ensures s.CellOf(s.threads[t].pos) != s.CellOf(s.threads[u].pos)
  {
    assert ThreadOk(s, t) && ThreadOk(s, u) && Apart(s, t, u);
    LapDistinct(s, s.threads[t].pos, s.threads[u].pos);
  }

  /** Threads other than `t` see nothing of a step of `t` on the cell it owns. */
  lemma OtherThread<V>(s: Queue<V>, s': Queue<V>, t: nat, u: nat, pos: nat)
    requires Inv(s) && t in s.threads && u in s.threads && t != u
    requires t in s'.threads && s'.threads == s.threads[t := s'.threads[t]]
    requires s'.Shape() && s'.cap == s.cap && s'.enq == s.enq && s'.deq == s.deq && s'.pushed == s.pushed
    requires s.threads[t].Pushing(pos) || s.threads[t].Popping(pos)
    requires forall c :: 0 <= c < s.cap && c != s.CellOf(pos) ==> s'.seqs[c] == s.seqs[c] && s'.vals[c] == s.vals[c]
    requires s'.popped == s.popped || (s.threads[t].Popping(pos) && s'.popped.Keys == s.popped.Keys + {pos})
    requires s'.seqs[s.CellOf(pos)] == s.seqs[s.CellOf(pos)] || s'.seqs[s.CellOf(pos)] >= pos + 1
    requires s.cap == 1 ==> s'.seqs[s.CellOf(pos)] <= pos + 1
    ensures ThreadOk(s', u)
  {
    assert ThreadOk(s, u) && ThreadOk(s, t) && Apart(s, t, u);
    if s.cap >= 2 {
      if pos == s.deq + 1 { CellNear(s.deq, pos, s.cap); }
      if pos + 1 == s.enq { CellNear(pos, s.enq, s.cap); }
    }
    if s.threads[u].OwnsPush() || s.threads[u].OwnsPop() { OwnersApart(s, t, u); }
  }

  /** The part of the invariant about claims, when one thread keeps or gives up its own claim and
      the cells of other positions keep their contents. */
  lemma OtherCells<V>(s: Queue<V>, s': Queue<V>, t: nat, pos: nat)
    requires Inv(s) && Bounds(s') && t in s.threads && t in s'.threads
    requires s'.threads == s.threads[t := s'.threads[t]]
    requires s'.cap == s.cap && s'.enq == s.enq && s'.deq == s.deq && s'.pushed == s.pushed
    requires InLap(s, pos)
    requires forall c :: 0 <= c < s.cap && c != s.CellOf(pos) ==> s'.seqs[c] == s.seqs[c] && s'.vals[c] == s.vals[c]
    requires forall p :: s.threads[t].Pushing(p) || s.threads[t].Popping(p) ==> p == pos
    requires CellOk(s', pos)
    ensures CellsOk(s')
  {
    forall p: nat | InLap(s', p)
      ensures CellOk(s', p)
    {
      if p != pos {
        assert CellOk(s, p);
        OtherClaims(s, s', t, p);
        LapDistinct(s, pos, p);
      }
    }
    forall p: nat
      ensures VirginOk(s', p)
    {
      assert VirginOk(s, p);
      if s.enq <= p < s.cap { CellNear(pos, p, s.cap); }
    }
  }

  lemma OtherPops<V>(s: Queue<V>, s': Queue<V>, t: nat)
    requires Inv(s) && t in s.threads && t in s'.threads
    requires s'.threads == s.threads[t := s'.threads[t]]
    requires s'.deq == s.deq && s'.enq == s.enq && s'.pushed == s.pushed
    requires forall p: nat :: p in s.popped ==> p in s'.popped && s'.popped[p] == s.popped[p]
    requires forall p: nat :: s.threads[t].Popping(p) ==>
               s'.threads[t].Popping(p) || (p in s'.popped && p < s.deq && s'.popped[p] == s.pushed[p])
    requires forall p: nat :: p in s'.popped ==> p in s.popped || p < s.deq
    requires forall p: nat :: p in s'.popped && p < s.deq && p !in s.popped ==> s'.popped[p] == s.pushed[p]
    ensures PopsOk(s')
  {
    forall p: nat | p < s'.deq
      ensures PoppedOk(s', p)
    {
      assert PoppedOk(s, p);
      OtherClaims(s, s', t, p);
    }
  }

  // -- the claiming and owning steps --

  lemma ClaimPushCells<V>(s: Queue<V>, t: nat, v: V, s': Queue<V>)
    requires Inv(s) && Roomy(s) && t in s.threads && s.threads[t] == PushCas(v, s.enq)
    requires s' == s.At(t, PushWrite(v, s.enq)).(enq := s.enq + 1, pushed := s.pushed + [v])
    ensures Bounds(s') && CellsOk(s') && PopsOk(s')
  {
    assert ThreadOk(s, t);
    TailCell(s);
    forall p: nat | InLap(s', p)
      ensures CellOk(s', p)
    {
      if p == s.enq {
        assert s'.threads[t].Pushing(p);
      } else {
        assert CellOk(s, p);
        OtherClaims(s, s', t, p);
      }
    }
    forall p: nat
      ensures VirginOk(s', p)
    {
      assert VirginOk(s, p);
    }
    forall p: nat | p < s'.deq
      ensures PoppedOk(s', p)
    {
      assert PoppedOk(s, p);
      OtherClaims(s, s', t, p);
    }
  }

  /** Winning the CAS of a push: position `enq` is claimed for `v`. */
  lemma ClaimPush<V>(s: Queue<V>, t: nat, v: V, s': Queue<V>)
    requires Inv(s) && Roomy(s) && t in s.threads && s.threads[t] == PushCas(v, s.enq)
    requires s' == s.At(t, PushWrite(v, s.enq)).(enq := s.enq + 1, pushed := s.pushed + [v])
    ensures Inv(s')
  {
    ClaimPushCells(s, t, v, s');
    forall u | u in s'.threads
      ensures ThreadOk(s', u)
    {
      ClaimPushThread(s, t, v, s', u);
    }
    forall u, w | u in s'.threads && w in s'.threads && u != w
      ensures Apart(s', u, w)
    {
      assert Apart(s, u, w) && ThreadOk(s, u) && ThreadOk(s, w);
    }
  }

  lemma ClaimPushThread<V>(s: Queue<V>, t: nat, v: V, s': Queue<V>, u: nat)
    requires Inv(s) && Roomy(s) && t in s.threads && u in s.threads && s.threads[t] == PushCas(v, s.enq)
    requires s' == s.At(t, PushWrite(v, s.enq)).(enq := s.enq + 1, pushed := s.pushed + [v])
    ensures ThreadOk(s', u)
  {
    assert ThreadOk(s, u) && ThreadOk(s, t);
    TailCell(s);
  }

  /** A step of `t` on the cell it owns keeps the invariant if its own part is in order. */
  lemma OwnedStep<V>(s: Queue<V>, s': Queue<V>, t: nat, pos: nat)
    requires Inv(s) && Bounds(s') && t in s.threads && t in s'.threads
    requires s'.threads == s.threads[t := s'.threads[t]]
    requires s'.cap == s.cap && s'.enq == s.enq && s'.deq == s.deq && s'.pushed == s.pushed
    requires s.threads[t].Pushing(pos) || s.threads[t].Popping(pos)
    requires forall c :: 0 <= c < s.cap && c != s.CellOf(pos) ==> s'.seqs[c] == s.seqs[c] && s'.vals[c] == s.vals[c]
    requires s'.popped == s.popped || (s.threads[t].Popping(pos) && s'.popped.Keys == s.popped.Keys + {pos})
    requires InLap(s, pos) && CellOk(s', pos) && ThreadOk(s', t)
    requires s'.seqs[s.CellOf(pos)] == s.seqs[s.CellOf(pos)] || s'.seqs[s.CellOf(pos)] >= pos + 1
    requires s.cap == 1 ==> s'.seqs[s.CellOf(pos)] <= pos + 1
    requires s'.threads[t].OwnsPush() ==> s.threads[t].OwnsPush() && s'.threads[t].pos == pos
    requires s'.threads[t].OwnsPop() ==> s.threads[t].OwnsPop() && s'.threads[t].pos == pos
    ensures CellsOk(s') && ThreadsOk(s')
  {
    OtherCells(s, s', t, pos);
    forall u | u in s'.threads
      ensures ThreadOk(s', u)
    {
      if u != t { OtherThread(s, s', t, u, pos); }
    }
    forall u, w | u in s'.threads && w in s'.threads && u != w
      ensures Apart(s', u, w)
    {
      assert Apart(s, u, w);
    }
  }

  /** Filling a claimed cell. */
  lemma WriteCell<V>(s: Queue<V>, t: nat, v: V, pos: nat, s': Queue<V>)
    requires Inv(s) && t in s.threads && s.threads[t] == PushWrite(v, pos)
    requires s' == s.At(t, PushPublish(v, pos)).(vals := s.vals[s.CellOf(pos) := v])
    ensures Inv(s')
  {
    assert ThreadOk(s, t);
    assert s'.threads[t].Pushing(pos);
    OwnedStep(s, s', t, pos);
    OtherPops(s, s', t);
  }

  /** Publishing a filled cell. */
  lemma Publish<V>(s: Queue<V>, t: nat, v: V, pos: nat, s': Queue<V>)
    requires Inv(s) && t in s.threads && s.threads[t] == PushPublish(v, pos)
    requires s' == s.At(t, Idle).(seqs := s.seqs[s.CellOf(pos) := pos + 1])
    ensures Inv(s')
  {
    assert ThreadOk(s, t);
    OwnedStep(s, s', t, pos);
    OtherPops(s, s', t);
  }

  lemma ClaimPopCells<V>(s: Queue<V>, t: nat, s': Queue<V>)
    requires Inv(s) && t in s.threads && s.threads[t] == PopCas(s.deq)
    requires s' == s.At(t, PopRead(s.deq)).(deq := s.deq + 1)
    ensures Bounds(s') && CellsOk(s') && PopsOk(s')
  {
    assert ThreadOk(s, t);
    HeadCell(s);
    assert s'.threads[t].Popping(s.deq);
    forall p: nat | InLap(s', p)
      ensures CellOk(s', p)
    {
      assert CellOk(s, p);
      OtherClaims(s, s', t, p);
    }
    forall p: nat
      ensures VirginOk(s', p)
    {
      assert VirginOk(s, p);
    }
    forall p: nat | p < s'.deq
      ensures PoppedOk(s', p)
    {
      if p < s.deq { assert PoppedOk(s, p); }
      OtherClaims(s, s', t, p);
    }
  }

  lemma ClaimPopThread<V>(s: Queue<V>, t: nat, s': Queue<V>, u: nat)
    requires Inv(s) && t in s.threads && u in s.threads && s.threads[t] == PopCas(s.deq)
    requires s' == s.At(t, PopRead(s.deq)).(deq := s.deq + 1)
    ensures ThreadOk(s', u)
  {
    assert ThreadOk(s, u) && ThreadOk(s, t);
    HeadCell(s);
  }

  /** Winning the CAS of a pop: position `deq` is claimed. */
  lemma ClaimPop<V>(s: Queue<V>, t: nat, s': Queue<V>)
    requires Inv(s) && t in s.threads && s.threads[t] == PopCas(s.deq)
    requires s' == s.At(t, PopRead(s.deq)).(deq := s.deq + 1)
    ensures Inv(s')
  {
    ClaimPopCells(s, t, s');
    forall u | u in s'.threads
      ensures ThreadOk(s', u)
    {
      ClaimPopThread(s, t, s', u);
    }
    forall u, w | u in s'.threads && w in s'.threads && u != w
      ensures Apart(s', u, w)
    {
      assert Apart(s, u, w) && ThreadOk(s, u) && ThreadOk(s, w);
    }
  }

  /** Reading a claimed cell. */
  lemma ReadCell<V>(s: Queue<V>, t: nat, pos: nat, s': Queue<V>)
    requires Inv(s) && t in s.threads && s.threads[t] == PopRead(pos)
    requires s' == s.At(t, PopRelease(s.vals[s.CellOf(pos)], pos))
    ensures Inv(s')
  {
    assert ThreadOk(s, t);
    assert CellOk(s, pos);
    OtherClaims(s, s', t, pos);
    OwnedStep(s, s', t, pos);
    OtherPops(s, s', t);
  }

  /** Releasing a cell for the next lap, returning its value. */
  lemma Release<V>(s: Queue<V>, t: nat, v: V, pos: nat, s': Queue<V>)
    requires Inv(s) && t in s.threads && s.threads[t] == PopRelease(v, pos)
    requires s' == s.At(t, Idle).(seqs := s.seqs[s.CellOf(pos) := pos + s.cap], popped := s.popped[pos := v])
    ensures Inv(s')
  {
    assert ThreadOk(s, t);
    OwnedStep(s, s', t, pos);
    OtherPops(s, s', t);
  }

  // -- the seeking steps --

  /** A test of a cell's sequence is the test of the unbounded counters. */
  lemma PushTest<V>(s: Queue<V>, t: nat)
    requires Inv(s) && s.Fresh() && t in s.threads && s.threads[t].SeekPush()
    ensures var pos := s.threads[t].pos;
            && SignedDiff(s.seqs[s.CellOf(pos)], pos) == s.seqs[s.CellOf(pos)] - pos
            && (s.enq % U64_SIZE == pos % U64_SIZE <==> s.enq == pos)
            && (s.seqs[s.CellOf(pos)] < pos ==> pos == s.enq)
  {
    assert ThreadOk(s, t);
    var pos := s.threads[t].pos;
    SeqRange(s, pos);
    DiffExact(s.seqs[s.CellOf(pos)], pos);
    DiffExact(s.enq, pos);
  }

  lemma PopTest<V>(s: Queue<V>, t: nat)
    requires Inv(s) && s.Fresh() && t in s.threads && s.threads[t].SeekPop()
    ensures var pos := s.threads[t].pos;
            && SignedDiff(s.seqs[s.CellOf(pos)], pos + 1) == s.seqs[s.CellOf(pos)] - (pos + 1)
            && (s.deq % U64_SIZE == pos % U64_SIZE <==> s.deq == pos)
            && (s.seqs[s.CellOf(pos)] < pos + 1 ==> pos == s.deq)
  {
    assert ThreadOk(s, t);
    var pos := s.threads[t].pos;
    SeqRange(s, pos);
    DiffExact(s.seqs[s.CellOf(pos)], pos + 1);
    DiffExact(s.deq, pos);
  }

  lemma PushSeekStep<V>(s: Queue<V>, t: nat, act: Act<V>, s': Queue<V>)
    requires Inv(s) && s.Fresh() && Next(s, t, act, s') && s.threads[t].SeekPush()
    requires s.threads[t].PushCas? ==> Roomy(s)
    ensures Inv(s')
  {
    PushTest(s, t);
    assert ThreadOk(s, t);
    if s.threads[t].PushCas? && act.Go? && s.threads[t].pos == s.enq {
      ClaimPush(s, t, s.threads[t].v, s');
    } else {
      Relabel(s, t, s'.threads[t], s');
    }
  }

  lemma PopSeekStep<V>(s: Queue<V>, t: nat, act: Act<V>, s': Queue<V>)
    requires Inv(s) && s.Fresh() && Next(s, t, act, s') && s.threads[t].SeekPop()
    ensures Inv(s')
  {
    PopTest(s, t);
    assert ThreadOk(s, t);
    if s.threads[t].PopCas? && act.Go? && s.threads[t].pos == s.deq {
      ClaimPop(s, t, s');
    } else {
      Relabel(s, t, s'.threads[t], s');
    }
  }

  lemma StartStep<V>(s: Queue<V>, t: nat, act: Act<V>, s': Queue<V>)
    requires Inv(s) && Next(s, t, act, s')
    requires s.threads[t].Idle? || s.threads[t].PushLoad? || s.threads[t].PopLoad?
    ensures Inv(s')
  {
    Relabel(s, t, s'.threads[t], s');
  }

  /** Every atomic step of every thread keeps the invariant. */
  lemma StepKeeps<V>(s: Queue<V>, t: nat, act: Act<V>, s': Queue<V>)
    requires Inv(s) && s.Fresh() && Next(s, t, act, s')
    requires s.threads[t].PushCas? ==> Roomy(s)
    ensures Inv(s')
  {
    match s.threads[t]
    case PushWrite(v, pos) => WriteCell(s, t, v, pos, s');
    case PushPublish(v, pos) => Publish(s, t, v, pos, s');
    case PopRead(pos) => ReadCell(s, t, pos, s');
    case PopRelease(v, pos) => Release(s, t, v, pos, s');
    case PushSeq(_, _) => PushSeekStep(s, t, act, s');
    case PushCas(_, _) => PushSeekStep(s, t, act, s');
    case PopSeq(_) => PopSeekStep(s, t, act, s');
    case PopCas(_) => PopSeekStep(s, t, act, s');
    case _ => StartStep(s, t, act, s');
  }

  lemma InitOk<V>(s: Queue<V>)
    requires Init(s)
    ensures Inv(s)
  {
    forall p: nat
      ensures VirginOk(s, p)
    {
      if p < s.cap { CellSmall(p, s.cap); }
    }
  }
}
