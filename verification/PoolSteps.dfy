/** The buffer pool under any interleaving of any number of threads. */
module PoolSteps {
  import opened Words
  import opened Mpmc
  import MpmcRuns

  // Steps are single atomic accesses: those of the free list (module `Mpmc`) and those of the pool's own
  // counter and flags.

  /** Where a thread is in its pool call. */
  datatype Stage =
    | Outside
    | Taking               // inside `free.pop`
    | Took(idx: nat)       // count the slot as outstanding
    | Checking(idx: nat)   // load its `initialized` flag
    | Filling(idx: nat)    // write `init()` into it
    | Marking(idx: nat)    // store its flag
    | Giving               // inside `free.push`
    | Gave                 // count the slot as returned
  {
    predicate Holds() { Took? || Checking? || Filling? || Marking? }

    /** The slot is counted as outstanding and no guard exists for it. */
    predicate Counts() { Checking? || Filling? || Marking? || Giving? || Gave? }
  }

  datatype Pool = Pool(
    q: Queue<nat>, size: nat,
    stages: map<nat, Stage>,
    initialized: seq<bool>,
    filled: seq<bool>,        // the slot's storage holds a value
    outstanding: int,
    guards: map<nat, nat>,    // the live guards, and the index each holds
    lost: set<nat>)           // indices dropped by an ignored "full" of the free list
  {
    function Goto(t: nat, st: Stage): Pool { this.(stages := stages[t := st]) }
  }

  datatype Act =
    | Get               // call `get_with`
    | DropGuard(g: nat) // drop guard `g`
    | Free(act: Mpmc.Act<nat>)  // one step of the free list
    | Own(g: nat)       // one step of the pool; `g` names the guard it may create

  predicate Seeking(ph: Phase<nat>) { ph.PushLoad? || ph.SeekPush() }

  /** Entering `free.pop` or `free.push`. */
  ghost predicate NextStart(p: Pool, t: nat, act: Act, p': Pool)
    requires t in p.stages
  {
    && p.stages[t].Outside?
    && if act.DropGuard? then
         && act.g in p.guards
         && Mpmc.Next(p.q, t, StartPush(p.guards[act.g]), p'.q)
         && p' == p.Goto(t, Giving).(q := p'.q, guards := p.guards - {act.g})
       else
         && Mpmc.Next(p.q, t, StartPop, p'.q)
         && p' == p.Goto(t, Taking).(q := p'.q)
  }

  /** One step of `free.pop`: when it returns an index, the caller goes on with it. */
  ghost predicate NextTake(p: Pool, t: nat, a: Mpmc.Act<nat>, p': Pool)
    requires t in p.stages
  {
    && Mpmc.Next(p.q, t, a, p'.q)
    && p' == p.Goto(t, if !p'.q.threads[t].Idle? then Taking
                       else if p.q.threads[t].PopRelease? then Took(p.q.threads[t].v)
                       else Outside).(q := p'.q)
  }

  /** One step of `free.push`: its result is ignored, so a "full" loses the index. */
  ghost predicate NextGive(p: Pool, t: nat, a: Mpmc.Act<nat>, p': Pool)
    requires t in p.stages
  {
    && Mpmc.Next(p.q, t, a, p'.q)
    && p' == p.Goto(t, if p'.q.threads[t].Idle? then Gave else Giving)
              .(q := p'.q,
                lost := if p'.q.threads[t].Idle? && p.q.threads[t].PushSeq?
                        then p.lost + {p.q.threads[t].v} else p.lost)
  }

  /** One step of the pool itself; `g` names the guard it may create. */
  ghost predicate NextOwn(p: Pool, t: nat, g: nat, p': Pool)
    requires t in p.stages
  {
    match p.stages[t]
    case Took(i) => p' == p.Goto(t, Checking(i)).(outstanding := p.outstanding + 1)
    case Checking(i) =>
      && i < |p.initialized| && g !in p.guards
      && p' == if p.initialized[i] then p.Goto(t, Outside).(guards := p.guards[g := i])
               else p.Goto(t, Filling(i))
    case Filling(i) => i < |p.filled| && p' == p.Goto(t, Marking(i)).(filled := p.filled[i := true])
    case Marking(i) =>
      && i < |p.initialized| && g !in p.guards
      && p' == p.Goto(t, Outside).(initialized := p.initialized[i := true], guards := p.guards[g := i])
    case Gave => p' == p.Goto(t, Outside).(outstanding := p.outstanding - 1)
    case _ => false
  }

  ghost predicate Next(p: Pool, t: nat, act: Act, p': Pool) {
    && t in p.stages
    && match act
       case Get => NextStart(p, t, act, p')
       case DropGuard(_) => NextStart(p, t, act, p')
       case Own(g) => NextOwn(p, t, g, p')
       case Free(a) =>
         (p.stages[t].Taking? && NextTake(p, t, a, p')) || (p.stages[t].Giving? && NextGive(p, t, a, p'))
  }

  /** The state `new` leaves: indices `0..size` pushed in order, nothing taken. */
  ghost predicate Init(p: Pool) {
    && 1 <= p.size <= p.q.cap && (p.q.cap == 1 ==> p.size == 1)
    && p.q.Shape()
    && p.q.enq == p.size && p.q.deq == 0 && p.q.pushed == seq(p.size, i => i) && p.q.popped == map[]
    && (forall i :: 0 <= i < p.q.cap ==> p.q.seqs[i] == if i < p.size then i + 1 else i)
    && (forall i :: 0 <= i < p.size ==> p.q.vals[i] == i)
    && p.q.threads.Keys == p.stages.Keys
    && (forall t :: t in p.stages ==> p.stages[t].Outside? && p.q.threads[t].Idle?)
    && p.initialized == seq(p.size, i => false) && p.filled == seq(p.size, i => false)
    && p.outstanding == 0 && p.guards == map[] && p.lost == {}
  }

  // ---- where an index is ----

  /** One place an index can be: unreturned in the free list, in a thread's hands, or in a guard. */
  datatype Token = AtPos(n: nat) | InPush(t: nat) | InGet(t: nat) | InGuard(g: nat)

  predicate Has(p: Pool, k: Token, i: nat) {
    match k
    case AtPos(n) => n < |p.q.pushed| && n !in p.q.popped && p.q.pushed[n] == i
    case InPush(t) => t in p.q.threads && Seeking(p.q.threads[t]) && p.q.threads[t].v == i
    case InGet(t) => t in p.stages && p.stages[t].Holds() && p.stages[t].idx == i
    case InGuard(g) => g in p.guards && p.guards[g] == i
  }

  /** No index is in two places. */
  ghost predicate Unique(p: Pool) {
    forall k, l, i: nat {:trigger Has(p, k, i), Has(p, l, i)} :: Has(p, k, i) && Has(p, l, i) ==> k == l
  }

  ghost predicate Somewhere(p: Pool, i: nat) {
    exists k :: Has(p, k, i)
  }

  /** Every index is in some place or was lost, and not both. */
  ghost predicate Accounted(p: Pool) {
    && (forall k, i: nat {:trigger Has(p, k, i)} :: Has(p, k, i) ==> i < p.size && i !in p.lost)
    && (forall i: nat {:trigger Somewhere(p, i)} :: i < p.size ==> Somewhere(p, i) || i in p.lost)
    && (forall i :: i in p.lost ==> i < p.size)
  }

  ghost predicate StageOk(p: Pool, t: nat)
    requires t in p.stages && t in p.q.threads
  {
    var ph := p.q.threads[t];
    match p.stages[t]
    case Taking => ph.PopLoad? || ph.SeekPop() || ph.OwnsPop()
    case Giving => Seeking(ph) || ph.OwnsPush()
    case _ => ph.Idle?
  }

  ghost predicate FlagsOk(p: Pool) {
    && |p.initialized| == |p.filled| == p.size
    && (forall i :: 0 <= i < p.size && p.initialized[i] ==> p.filled[i])
    && (forall g :: g in p.guards ==> p.guards[g] < p.size && p.initialized[p.guards[g]])
    && (forall t :: t in p.stages && p.stages[t].Marking? ==> p.stages[t].idx < p.size && p.filled[p.stages[t].idx])
  }

  ghost predicate StagesOk(p: Pool) {
    && p.q.threads.Keys == p.stages.Keys
    && forall t {:trigger StageOk(p, t)} :: t in p.stages ==> StageOk(p, t)
  }

  ghost predicate PInv(p: Pool) {
    && 1 <= p.size <= p.q.cap && (p.q.cap == 1 ==> p.size == 1)
    && Mpmc.Inv(p.q)
    && StagesOk(p) && Unique(p) && Accounted(p) && FlagsOk(p)
  }

  // ---- how a step moves an index ----

  /** Index `i` goes from place `a` to place `b`, and no other index moves. */
  ghost predicate Moves(p: Pool, p': Pool, a: Token, b: Token, i: nat) {
    forall k, j: nat {:trigger Has(p', k, j)} ::
      Has(p', k, j) <==> if k == b then j == i else k != a && Has(p, k, j)
  }

  ghost predicate Still(p: Pool, p': Pool) {
    forall k, j: nat {:trigger Has(p', k, j)} :: Has(p', k, j) <==> Has(p, k, j)
  }

  lemma MoveKeeps(p: Pool, p': Pool, a: Token, b: Token, i: nat)
    requires Unique(p) && Accounted(p) && p'.size == p.size && p'.lost == p.lost
    requires Has(p, a, i) && Moves(p, p', a, b, i) && (a == b || forall j: nat :: !Has(p, b, j))
    ensures Unique(p') && Accounted(p')
  {
    assert Has(p', b, i);
    forall j: nat | j < p.size && j !in p.lost
      ensures Somewhere(p', j)
    {
      assert Somewhere(p, j);
      var k :| Has(p, k, j);
      if k != a && k != b { assert Has(p', k, j); }
    }
  }

  lemma StillKeeps(p: Pool, p': Pool)
    requires Unique(p) && Accounted(p) && p'.size == p.size && p'.lost == p.lost && Still(p, p')
    ensures Unique(p') && Accounted(p')
  {
    forall j: nat | j < p.size && j !in p.lost
      ensures Somewhere(p', j)
    {
      assert Somewhere(p, j);
      var k :| Has(p, k, j);
      assert Has(p', k, j);
    }
  }

  lemma LoseKeeps(p: Pool, p': Pool, a: Token, i: nat)
    requires Unique(p) && Accounted(p) && p'.size == p.size && p'.lost == p.lost + {i}
    requires Has(p, a, i)
    requires forall k, j: nat {:trigger Has(p', k, j)} :: Has(p', k, j) <==> k != a && Has(p, k, j)
    ensures Unique(p') && Accounted(p')
  {
    forall j: nat | j < p.size && j !in p'.lost
      ensures Somewhere(p', j)
    {
      assert Somewhere(p, j);
      var k :| Has(p, k, j);
      assert Has(p', k, j);
    }
  }

  // ---- each step ----

  lemma Waiting(p: Pool, n: nat)
    requires n < |p.q.pushed|
    ensures n in p.q.popped || Has(p, AtPos(n), p.q.pushed[n])
  {
  }

  /** The free list's own claims are safe: with one cell there is one index, so the index a thread
      pushes is the only one and nothing is left in the list. */
  lemma PushIsRoomy(p: Pool, t: nat)
    requires PInv(p) && t in p.q.threads && p.q.threads[t].PushCas?
    ensures Roomy(p.q)
  {
    if p.q.cap == 1 {
      assert Has(p, InPush(t), p.q.threads[t].v);
      forall n: nat | n < p.q.enq
        ensures n in p.q.popped
      {
        Waiting(p, n);
      }
    }
  }

  lemma FreeKeeps(p: Pool, t: nat, a: Mpmc.Act<nat>, q': Queue<nat>)
    requires PInv(p) && p.q.Fresh() && Mpmc.Next(p.q, t, a, q')
    ensures Mpmc.Inv(q') && q'.cap == p.q.cap
  {
    if p.q.threads[t].PushCas? { PushIsRoomy(p, t); }
    Mpmc.StepKeeps(p.q, t, a, q');
  }

  /** A step changes the stage and the phase of its own thread only. */
  ghost predicate StageStep(p: Pool, t: nat, p': Pool) {
    && t in p'.stages && t in p'.q.threads && StageOk(p', t)
    && p'.stages == p.stages[t := p'.stages[t]]
    && p'.q.threads == p.q.threads[t := p'.q.threads[t]]
  }

  lemma StagesKept(p: Pool, t: nat, act: Act, p': Pool)
    requires StagesOk(p) && t in p.stages && StageStep(p, t, p')
    ensures StagesOk(p')
  {
    forall u | u in p'.stages
      ensures StageOk(p', u)
    {
      if u != t { assert StageOk(p, u); }
    }
  }

  lemma TakeStage(p: Pool, t: nat, a: Mpmc.Act<nat>, p': Pool)
    requires t in p.stages && t in p.q.threads && StageOk(p, t) && p.stages[t].Taking? && NextTake(p, t, a, p')
    ensures StageStep(p, t, p')
  {
  }

  lemma GiveStage(p: Pool, t: nat, a: Mpmc.Act<nat>, p': Pool)
    requires t in p.stages && t in p.q.threads && StageOk(p, t) && p.stages[t].Giving? && NextGive(p, t, a, p')
    ensures StageStep(p, t, p')
  {
  }

  lemma StageReached(p: Pool, t: nat, act: Act, p': Pool)
    requires t in p.stages && t in p.q.threads && StageOk(p, t) && Next(p, t, act, p')
    ensures StageStep(p, t, p')
  {
    match act
    case Free(a) => if p.stages[t].Taking? { TakeStage(p, t, a, p'); } else { GiveStage(p, t, a, p'); }
    case Own(g) => assert NextOwn(p, t, g, p') && p'.q == p.q;
    case _ => assert NextStart(p, t, act, p');
  }

  lemma NewGuard(p: Pool, t: nat, g: nat, i: nat, p': Pool)
    requires FlagsOk(p) && t in p.stages && g !in p.guards && i < p.size && p.filled[i]
    requires p'.size == p.size && p'.filled == p.filled && p'.initialized == p.initialized[i := true]
    requires p'.guards == p.guards[g := i] && p'.stages == p.stages[t := Outside]
    ensures FlagsOk(p')
  {
  }

  lemma SameGuards(p: Pool, t: nat, p': Pool)
    requires FlagsOk(p) && t in p.stages && t in p'.stages && p'.stages == p.stages[t := p'.stages[t]]
    requires p'.size == p.size && p'.initialized == p.initialized && |p'.filled| == p.size
    requires forall g :: g in p'.guards ==> g in p.guards && p'.guards[g] == p.guards[g]
    requires forall i :: 0 <= i < p.size && p.filled[i] ==> p'.filled[i]
    requires p'.stages[t].Marking? ==> p'.stages[t].idx < p.size && p'.filled[p'.stages[t].idx]
    ensures FlagsOk(p')
  {
  }

  lemma FlagsKept(p: Pool, t: nat, act: Act, p': Pool)
    requires FlagsOk(p) && Next(p, t, act, p') && StageStep(p, t, p')
    requires p.stages[t].Holds() ==> p.stages[t].idx < p.size
    ensures FlagsOk(p')
  {
    if act.Own? && p'.stages[t].Outside? && !p.stages[t].Gave? {
      assert NextOwn(p, t, act.g, p');
      assert p.initialized[p.stages[t].idx := true] == p'.initialized;
      NewGuard(p, t, act.g, p.stages[t].idx, p');
    } else {
      SameGuards(p, t, p');
    }
  }

  // -- the index a step moves --

  lemma StartMoves(p: Pool, t: nat, act: Act, p': Pool)
    requires Unique(p) && Accounted(p) && t in p.stages && t in p.q.threads && StageOk(p, t)
    requires NextStart(p, t, act, p') && (act.Get? || act.DropGuard?)
    ensures Unique(p') && Accounted(p')
  {
    if act.Get? {
      assert Still(p, p');
      StillKeeps(p, p');
    } else {
      var i := p.guards[act.g];
      assert Has(p, InGuard(act.g), i);
      assert Moves(p, p', InGuard(act.g), InPush(t), i);
      MoveKeeps(p, p', InGuard(act.g), InPush(t), i);
    }
  }

  /** What the steps of a pop do to the places of indices. */
  lemma TakeMoves(p: Pool, t: nat, a: Mpmc.Act<nat>, p': Pool)
    requires Unique(p) && Accounted(p) && t in p.stages && t in p.q.threads && StageOk(p, t)
    requires NextTake(p, t, a, p') && p.stages[t].Taking?
    requires var ph := p.q.threads[t];
             ph.PopRelease? ==> ph.pos < |p.q.pushed| && ph.pos !in p.q.popped && ph.v == p.q.pushed[ph.pos]
    ensures Unique(p') && Accounted(p')
  {
    var ph := p.q.threads[t];
    TakeStage(p, t, a, p');
    assert p'.guards == p.guards && p'.q.pushed == p.q.pushed && p'.lost == p.lost;
    if ph.PopRelease? {
      assert p'.q.popped == p.q.popped[ph.pos := ph.v] && p'.stages[t] == Took(ph.v);
      TakenIndex(p, t, ph.pos, ph.v, p');
      assert Has(p, AtPos(ph.pos), ph.v);
      MoveKeeps(p, p', AtPos(ph.pos), InGet(t), ph.v);
    } else {
      assert p'.q.popped == p.q.popped && !p'.stages[t].Holds();
      SamePlaces(p, t, p');
      StillKeeps(p, p');
    }
  }

  lemma TakenIndex(p: Pool, t: nat, n: nat, i: nat, p': Pool)
    requires StageStep(p, t, p') && p'.guards == p.guards && p'.q.pushed == p.q.pushed
    requires p'.q.popped == p.q.popped[n := i] && p'.stages[t] == Took(i)
    requires t in p.q.threads && !Seeking(p.q.threads[t]) && t in p.stages && !p.stages[t].Holds()
    ensures Moves(p, p', AtPos(n), InGet(t), i)
  {
  }

  /** A thread that holds the same index before and after, or none, moves nothing. */
  lemma SamePlaces(p: Pool, t: nat, p': Pool)
    requires StageStep(p, t, p') && t in p.q.threads && t in p.stages
    requires p'.guards == p.guards && p'.q.pushed == p.q.pushed && p'.q.popped.Keys == p.q.popped.Keys
    requires !p.stages[t].Holds() && !p'.stages[t].Holds()
    requires Seeking(p.q.threads[t]) <==> Seeking(p'.q.threads[t])
    requires Seeking(p.q.threads[t]) ==> p.q.threads[t].v == p'.q.threads[t].v
    ensures Still(p, p')
  {
  }

  lemma PushedIndex(p: Pool, t: nat, v: nat, p': Pool)
    requires StageStep(p, t, p') && t in p.q.threads && t in p.stages
    requires p'.guards == p.guards && p'.q.pushed == p.q.pushed + [v] && p'.q.popped == p.q.popped
    requires |p.q.pushed| !in p.q.popped
    requires !p.stages[t].Holds() && !p'.stages[t].Holds()
    requires Seeking(p.q.threads[t]) && !Seeking(p'.q.threads[t]) && p.q.threads[t].v == v
    ensures Moves(p, p', InPush(t), AtPos(|p.q.pushed|), v)
  {
  }

  lemma DroppedIndex(p: Pool, t: nat, p': Pool)
    requires StageStep(p, t, p') && t in p.q.threads && t in p.stages
    requires p'.guards == p.guards && p'.q.pushed == p.q.pushed && p'.q.popped == p.q.popped
    requires !p.stages[t].Holds() && !p'.stages[t].Holds()
    requires Seeking(p.q.threads[t]) && !Seeking(p'.q.threads[t])
    ensures forall k, j: nat {:trigger Has(p', k, j)} :: Has(p', k, j) <==> k != InPush(t) && Has(p, k, j)
  {
  }

  /** What the steps of a push do to the places of indices. */
  lemma GiveMoves(p: Pool, t: nat, a: Mpmc.Act<nat>, p': Pool)
    requires Unique(p) && Accounted(p) && t in p.stages && t in p.q.threads && StageOk(p, t)
    requires NextGive(p, t, a, p') && p.stages[t].Giving?
    requires |p.q.pushed| == p.q.enq && p.q.enq !in p.q.popped
    ensures Unique(p') && Accounted(p')
  {
    var ph, ph' := p.q.threads[t], p'.q.threads[t];
    GiveStage(p, t, a, p');
    if ph.PushCas? && ph'.PushWrite? {
      PushedIndex(p, t, ph.v, p');
      assert Has(p, InPush(t), ph.v);
      MoveKeeps(p, p', InPush(t), AtPos(p.q.enq), ph.v);
    } else if ph.PushSeq? && ph'.Idle? {
      DroppedIndex(p, t, p');
      assert Has(p, InPush(t), ph.v);
      LoseKeeps(p, p', InPush(t), ph.v);
    } else {
      SamePlaces(p, t, p');
      StillKeeps(p, p');
    }
  }

  lemma OwnMoves(p: Pool, t: nat, g: nat, p': Pool)
    requires Unique(p) && Accounted(p) && t in p.stages && t in p.q.threads && StageOk(p, t)
    requires NextOwn(p, t, g, p')
    ensures Unique(p') && Accounted(p')
  {
    if p.stages[t].Gave? {
      assert Still(p, p');
      StillKeeps(p, p');
    } else {
      var i := p.stages[t].idx;
      var b := if p'.stages[t].Outside? then InGuard(g) else InGet(t);
      assert Has(p, InGet(t), i);
      assert Moves(p, p', InGet(t), b, i);
      MoveKeeps(p, p', InGet(t), b, i);
    }
  }

  lemma QueueKept(p: Pool, t: nat, act: Act, p': Pool)
    requires PInv(p) && p.q.Fresh() && Next(p, t, act, p')
    ensures Mpmc.Inv(p'.q) && p'.q.cap == p.q.cap && p'.size == p.size
  {
    match act
    case Get => FreeKeeps(p, t, StartPop, p'.q);
    case DropGuard(g) => FreeKeeps(p, t, StartPush(p.guards[g]), p'.q);
    case Free(a) => FreeKeeps(p, t, a, p'.q);
    case Own(_) =>
  }

  lemma MovesKept(p: Pool, t: nat, act: Act, p': Pool)
    requires PInv(p) && Next(p, t, act, p')
    ensures Unique(p') && Accounted(p')
  {
    assert StageOk(p, t) && ThreadOk(p.q, t);
    match act
    case Get => StartMoves(p, t, act, p');
    case DropGuard(_) => StartMoves(p, t, act, p');
    case Own(g) => OwnMoves(p, t, g, p');
    case Free(a) => if p.stages[t].Taking? { TakeMoves(p, t, a, p'); } else { GiveMoves(p, t, a, p'); }
  }

  /** Every atomic step of every thread keeps the invariant. */
  lemma StepKeeps(p: Pool, t: nat, act: Act, p': Pool)
    requires PInv(p) && p.q.Fresh() && Next(p, t, act, p')
    ensures PInv(p')
  {
    QueueKept(p, t, act, p');
    MovesKept(p, t, act, p');
    assert StageOk(p, t);
    StageReached(p, t, act, p');
    StagesKept(p, t, act, p');
    if p.stages[t].Holds() { assert Has(p, InGet(t), p.stages[t].idx); }
    FlagsKept(p, t, act, p');
  }

  lemma InitQueue(p: Pool)
    requires Init(p)
    ensures Mpmc.Inv(p.q)
  {
    forall n: nat
      ensures VirginOk(p.q, n)
      ensures n < p.q.enq ==> CellOk(p.q, n)
    {
      if n < p.q.cap { CellSmall(n, p.q.cap); }
    }
  }

  lemma InitOk(p: Pool)
    requires Init(p)
    ensures PInv(p)
  {
    InitQueue(p);
    forall i: nat | i < p.size
      ensures Somewhere(p, i)
    {
      assert Has(p, AtPos(i), i);
    }
  }

  // ---- whole runs ----

  datatype PoolMove = PoolMove(t: nat, act: Act)

  ghost predicate IsRun(run: seq<Pool>, moves: seq<PoolMove>) {
    && |run| == |moves| + 1
    && Init(run[0])
    && forall i {:trigger Linked(run, moves, i)} :: 0 <= i < |moves| ==> Linked(run, moves, i)
  }

  ghost predicate Linked(run: seq<Pool>, moves: seq<PoolMove>, i: nat)
    requires i < |moves| < |run|
  {
    run[i].q.Fresh() && Next(run[i], moves[i].t, moves[i].act, run[i + 1])
  }

  lemma {:induction false} RunKeeps(run: seq<Pool>, moves: seq<PoolMove>)
    requires IsRun(run, moves)
    ensures PInv(run[|moves|])
    decreases |moves|
  {
    if moves == [] {
      InitOk(run[0]);
    } else {
      var k := |moves| - 1;
      var before, made := run[..k + 1], moves[..k];
      forall i | 0 <= i < k
        ensures Linked(before, made, i)
      {
        assert Linked(run, moves, i);
      }
      RunKeeps(before, made);
      assert Linked(run, moves, k);
      StepKeeps(run[k], moves[k].t, moves[k].act, run[k + 1]);
    }
  }

  /** In every interleaving, for every pool size, no two live guards hold one slot, and every held
      slot is within the pool and initialized. */
  lemma Exclusivity(run: seq<Pool>, moves: seq<PoolMove>, g: nat, h: nat)
    requires IsRun(run, moves)
    requires g in run[|moves|].guards && h in run[|moves|].guards
    ensures var p := run[|moves|];
            && (p.guards[g] == p.guards[h] ==> g == h)
            && p.guards[g] < p.size == |p.filled| && p.filled[p.guards[g]]
  {
    RunKeeps(run, moves);
    var p := run[|moves|];
    assert Has(p, InGuard(g), p.guards[g]);
    assert Has(p, InGuard(h), p.guards[h]);
  }

  // -- the counter --

  /** The threads that have counted a slot as outstanding and hold no guard for it. */
  function Counting(stages: map<nat, Stage>): set<nat> {
    set t | t in stages && stages[t].Counts()
  }

  /** The counter is the live guards and the calls between counting and guarding or ungarding. */
  predicate InUse(p: Pool) { p.outstanding == |p.guards| + |Counting(p.stages)| }

  lemma CountingSet(stages: map<nat, Stage>, t: nat, st: Stage)
    requires t in stages
    ensures |Counting(stages[t := st])|
            == |Counting(stages)| + Counted(st) - Counted(stages[t])
  {
    var was, now := Counting(stages), Counting(stages[t := st]);
    assert forall u :: u != t ==> (u in now <==> u in was);
    assert now - {t} == was - {t};
    OneLess(was, t);
    OneLess(now, t);
  }

  lemma OneLess(s: set<nat>, t: nat)
    ensures |s - {t}| == |s| - if t in s then 1 else 0
  {
    if t !in s { assert s - {t} == s; }
  }

  /** 1 for a thread that has counted a slot, 0 for any other. */
  function Counted(st: Stage): nat { if st.Counts() then 1 else 0 }

  lemma InUseKept(p: Pool, t: nat, act: Act, p': Pool)
    requires InUse(p) && Next(p, t, act, p')
    ensures InUse(p')
  {
    CountedMoves(p, t, act, p');
    CountingSet(p.stages, t, p'.stages[t]);
  }

  /** The counter moves by as much as guards and counting threads together. */
  ghost predicate CountedMove(p: Pool, t: nat, p': Pool)
    requires t in p.stages
  {
    && t in p'.stages && p'.stages == p.stages[t := p'.stages[t]]
    && p'.outstanding - p.outstanding == |p'.guards| - |p.guards| + Counted(p'.stages[t]) - Counted(p.stages[t])
  }

  lemma CountedMoves(p: Pool, t: nat, act: Act, p': Pool)
    requires Next(p, t, act, p')
    ensures t in p.stages && CountedMove(p, t, p')
  {
    match act
    case Get => StartCounted(p, t, act, p');
    case DropGuard(g) => StartCounted(p, t, act, p');
    case Own(g) => OwnCounted(p, t, g, p');
    case Free(a) => FreeCounted(p, t, a, p');
  }

  lemma StartCounted(p: Pool, t: nat, act: Act, p': Pool)
    requires t in p.stages && NextStart(p, t, act, p')
    ensures CountedMove(p, t, p')
  {
    if act.DropGuard? { GuardDropped(p.guards, act.g); }
  }

  lemma FreeCounted(p: Pool, t: nat, a: Mpmc.Act<nat>, p': Pool)
    requires t in p.stages
    requires (p.stages[t].Taking? && NextTake(p, t, a, p')) || (p.stages[t].Giving? && NextGive(p, t, a, p'))
    ensures CountedMove(p, t, p')
  {
  }

  lemma OwnCounted(p: Pool, t: nat, g: nat, p': Pool)
    requires t in p.stages && NextOwn(p, t, g, p')
    ensures CountedMove(p, t, p')
  {
  }

  lemma GuardDropped(guards: map<nat, nat>, g: nat)
    requires g in guards
    ensures |guards - {g}| == |guards| - 1
  {
    var rest := guards - {g};
    assert g !in rest && guards == rest[g := guards[g]];
  }

  lemma {:induction false} InUseRuns(run: seq<Pool>, moves: seq<PoolMove>)
    requires IsRun(run, moves)
    ensures InUse(run[|moves|])
    decreases |moves|
  {
    if moves == [] {
      assert Counting(run[0].stages) == {};
    } else {
      var k := |moves| - 1;
      var before, made := run[..k + 1], moves[..k];
      forall i | 0 <= i < k
        ensures Linked(before, made, i)
      {
        assert Linked(run, moves, i);
      }
      InUseRuns(before, made);
      assert Linked(run, moves, k);
      InUseKept(run[k], moves[k].t, moves[k].act, run[k + 1]);
    }
  }

  /** In every interleaving `in_use` is at least the number of live guards, so it never wraps below zero,
      and is that number exactly when no call is between counting a slot and handing it over or back. */
  lemma InUseBounds(run: seq<Pool>, moves: seq<PoolMove>)
    requires IsRun(run, moves)
    ensures var p := run[|moves|];
            && p.outstanding >= |p.guards|
            && (p.outstanding == |p.guards| <==> forall t :: t in p.stages ==> !p.stages[t].Counts())
  {
    InUseRuns(run, moves);
    var p := run[|moves|];
    if p.outstanding == |p.guards| {
      assert Counting(p.stages) == {};
      assert forall t :: t in p.stages ==> t !in Counting(p.stages);
    } else {
      assert Counting(p.stages) != {};
    }
  }

  /** In every interleaving every index is in exactly one place, or it was lost to an ignored "full". */
  lemma Accounting(run: seq<Pool>, moves: seq<PoolMove>, i: nat)
    requires IsRun(run, moves) && i < run[|moves|].size
    ensures var p := run[|moves|];
            && (forall k, l :: Has(p, k, i) && Has(p, l, i) ==> k == l)
            && (Somewhere(p, i) <==> i !in p.lost)
  {
    RunKeeps(run, moves);
    var p := run[|moves|];
    assert Somewhere(p, i) || i in p.lost;
  }

  // ---- when an index is lost ----

  lemma {:induction false} Pigeonhole(s: seq<nat>, n: nat)
    requires forall i, j :: 0 <= i < j < |s| ==> s[i] != s[j]
    requires forall i :: 0 <= i < |s| ==> s[i] < n
    ensures |s| <= n
    decreases n
  {
    if s == [] {
      return;
    }
    assert s[0] < n;
    if i :| 0 <= i < |s| && s[i] == n - 1 {
      var rest := s[..i] + s[i + 1..];
      assert forall k :: 0 <= k < |rest| ==> rest[k] == s[if k < i then k else k + 1];
      Pigeonhole(rest, n - 1);
    } else {
      Pigeonhole(s, n - 1);
    }
  }

  /** The list never holds as many unpopped indices as it has cells while another is being dropped. */
  lemma NeverFull(p: Pool, t: nat)
    requires PInv(p) && t in p.q.threads && Seeking(p.q.threads[t])
    ensures p.q.enq < p.q.deq + p.q.cap
  {
    var waiting := p.q.pushed[p.q.deq..];
    var v := p.q.threads[t].v;
    assert Has(p, InPush(t), v);
    forall i | 0 <= i < |waiting|
      ensures Has(p, AtPos(p.q.deq + i), waiting[i])
    {
      assert p.q.deq + i !in p.q.popped;
    }
    Pigeonhole(waiting + [v], p.size);
  }

  lemma OneSlotKept(p: Pool, t: nat)
    requires PInv(p) && p.q.Fresh() && p.q.cap == 1 && t in p.q.threads && p.q.threads[t].PushSeq?
    ensures var pos := p.q.threads[t].pos; SignedDiff(p.q.seqs[p.q.CellOf(pos)], pos) >= 0
  {
    PushTest(p.q, t);
    assert Has(p, InPush(t), p.q.threads[t].v);
    var n := p.q.enq;
    if n > 0 {
      assert CellOk(p.q, n - 1);
      Waiting(p, n - 1);
    } else {
      assert VirginOk(p.q, n);
    }
  }

  /** Dropping a guard loses its index exactly when, at the load of the tail cell's sequence, a
      thread that has claimed the cell's previous occupant has not released it yet: the free list
      reports "full" though it has room, and the result is ignored. A pool of one slot never does. */
  lemma LostWhen(p: Pool, t: nat, p': Pool)
    requires PInv(p) && p.q.Fresh() && Next(p, t, Free(Go), p') && p.q.threads[t].PushSeq?
    ensures p'.lost != p.lost <==>
            && p.q.threads[t].pos == p.q.enq >= p.q.cap >= 2
            && PopClaimed(p.q, p.q.enq - p.q.cap)
  {
    assert StageOk(p, t);
    NeverFull(p, t);
    assert Has(p, InPush(t), p.q.threads[t].v);
    if p.q.cap >= 2 {
      MpmcRuns.FullWhen(p.q, t, p'.q);
    } else {
      OneSlotKept(p, t);
    }
  }
}
