/** What holds over whole runs of the safety loop. */
module SafetyRuns {
  import opened Safety
  import opened SafetySteps
  import opened Words

  ghost function StepOf(s: Loop, op: Op): Loop { if s.Inv() then Step(s, op) else s }

  function RunBy<S, O>(step: (S, O) -> S, s: S, ops: seq<O>): S
    decreases ops
  {
    if ops == [] then s else RunBy(step, step(s, ops[0]), ops[1..])
  }

  /** The state after a run of operations. */
  ghost function Run(s: Loop, ops: seq<Op>): Loop { RunBy(StepOf, s, ops) }

  /** What every step keeps, a run keeps. */
  lemma {:induction false} RunKeeps<S(!new), O(!new)>(step: (S, O) -> S, inv: S -> bool, s: S, ops: seq<O>)
    requires forall t: S, o: O {:trigger step(t, o)} :: inv(t) ==> inv(step(t, o))
    requires inv(s)
    ensures inv(RunBy(step, s, ops))
    decreases ops
  {
    if ops != [] { RunKeeps(step, inv, step(s, ops[0]), ops[1..]); }
  }

  lemma RunInv(s: Loop, ops: seq<Op>)
    requires s.Inv()
    ensures Run(s, ops).Inv() && Run(s, ops).cfg == s.cfg
  {
    var inv := (t: Loop) => t.Inv() && t.cfg == s.cfg;
    RunKeeps(StepOf, inv, s, ops);
  }

  /** The envelope over runs: after any operations since start-up, the next output obeys it, measured
      against the output before it, and goes no further from neutral than that output, the autonomy and
      the operator; and the authority is in [0, 1]. */
  lemma RunEnvelope(cfg: Config, mode: Mode, ops: seq<Op>, nowNs: u64, queue: seq<Command>, k: int)
    requires cfg.Valid() && queue != [] && 0 <= k < 6
    ensures var s := Run(New(cfg, mode), ops);
            && s.Inv() && s.cfg == cfg && 0.0 <= s.authority <= 1.0
            && cfg.limits.Low(k) <= s.lastOut.axes[k] <= cfg.limits.High(k)
            && Envelope(s, Step(s, Tick(nowNs, queue)), k)
            && Bounded(s, Newest(queue), Step(s, Tick(nowNs, queue)), k)
  {
    NewOk(cfg, mode);
    RunInv(New(cfg, mode), ops);
    var s := Run(New(cfg, mode), ops);
    TickEnvelope(s, nowNs, queue, Step(s, Tick(nowNs, queue)), k);
    TickBounded(s, nowNs, queue, Step(s, Tick(nowNs, queue)), k);
  }

  // -- the emergency stop --

  /** The output of a tick that ends with the stop latched is the zeroed emergency command. */
  lemma StoppedOutput(s: Loop, nowNs: u64, queue: seq<Command>)
    requires s.Inv() && queue != []
    ensures var next := Step(s, Tick(nowNs, queue));
            && next.estop == (s.estop || s.Breach())
            && (next.estop ==> next.lastOut == EmergencyCommand(Newest(queue).seqNo, nowNs))
  {
    TickIs(s, nowNs, queue);
  }

  lemma StopKept(s: Loop, op: Op)
    requires s.Inv() && s.estop
    ensures Step(s, op).estop
  {
    match op
    case Tick(nowNs, queue) => if queue != [] { StoppedOutput(s, nowNs, queue); }
    case _ =>
  }

  /** The stop is never unlatched. */
  lemma StopLatched(s: Loop, ops: seq<Op>)
    requires s.Inv() && s.estop
    ensures Run(s, ops).Inv() && Run(s, ops).estop
  {
    var inv := (t: Loop) => t.Inv() && t.estop;
    forall t: Loop, o: Op | inv(t)
      ensures inv(StepOf(t, o))
    {
      StopKept(t, o);
    }
    RunKeeps(StepOf, inv, s, ops);
  }

  /** From an emergency stop, or from the tick that meets a hard breach, every output of every later
      run is the zeroed emergency command, and so is that tick's own. */
  lemma StopAbsorbs(s: Loop, cause: Op, ops: seq<Op>, nowNs: u64, queue: seq<Command>)
    requires s.Inv() && queue != []
    requires cause.Stop? || (cause.Tick? && cause.queue != [] && s.Breach())
    ensures var r := Run(Step(s, cause), ops);
            && r.Inv()
            && Step(r, Tick(nowNs, queue)).lastOut == EmergencyCommand(Newest(queue).seqNo, nowNs)
    ensures cause.Tick? ==>
              Step(s, cause).lastOut == EmergencyCommand(Newest(cause.queue).seqNo, cause.nowNs)
  {
    if cause.Tick? { StoppedOutput(s, cause.nowNs, cause.queue); }
    var s1 := Step(s, cause);
    StopLatched(s1, ops);
    StoppedOutput(Run(s1, ops), nowNs, queue);
  }

  /** The pose the loop holds before operation `i` of a run, started at pose `p`. */
  function PoseAt(p: Pose, ops: seq<Op>, i: nat): Pose
    requires i <= |ops|
    decreases i
  {
    if i == 0 then p else if ops[i - 1].SetPose? then ops[i - 1].p else PoseAt(p, ops, i - 1)
  }

  /** Operation `i` latches the stop: an emergency stop, or a command handled in a hard breach. */
  predicate StopCause(fence: Fence, p: Pose, ops: seq<Op>, i: nat)
    requires i < |ops|
  {
    ops[i].Stop? || (HandlesCommand(ops[i]) && fence.Evaluate(PoseAt(p, ops, i)).HardBreach?)
  }

  ghost predicate StopCaused(fence: Fence, p: Pose, ops: seq<Op>) {
    exists i: nat :: i < |ops| && StopCause(fence, p, ops, i)
  }

  /** What one operation does to pose and latch. */
  ghost predicate StopStep(s: Loop, op: Op, next: Loop) {
    && next.cfg == s.cfg
    && next.pose == (if op.SetPose? then op.p else s.pose)
    && next.estop == (s.estop || op.Stop? || (HandlesCommand(op) && s.cfg.fence.Evaluate(s.pose).HardBreach?))
  }

  lemma StepStops(s: Loop, op: Op, next: Loop)
    requires s.Inv() && next == Step(s, op)
    ensures StopStep(s, op, next)
  {
    if HandlesCommand(op) { TickIs(s, op.nowNs, op.queue); }
  }

  lemma {:induction false} PoseAtRest(p: Pose, q: Pose, ops: seq<Op>, i: nat)
    requires 0 < i <= |ops| && q == if ops[0].SetPose? then ops[0].p else p
    ensures PoseAt(p, ops, i) == PoseAt(q, ops[1..], i - 1)
    decreases i
  {
    if i > 1 { PoseAtRest(p, q, ops, i - 1); }
  }

  /** The causes of a run are those of its first operation and those of the rest. */
  lemma CausedRest(fence: Fence, p: Pose, q: Pose, ops: seq<Op>)
    requires ops != [] && q == if ops[0].SetPose? then ops[0].p else p
    ensures StopCaused(fence, p, ops) <==> StopCause(fence, p, ops, 0) || StopCaused(fence, q, ops[1..])
  {
    forall i: nat | 0 < i < |ops|
      ensures StopCause(fence, p, ops, i) <==> StopCause(fence, q, ops[1..], i - 1)
    {
      PoseAtRest(p, q, ops, i);
    }
    if StopCaused(fence, q, ops[1..]) {
      var i: nat :| i < |ops[1..]| && StopCause(fence, q, ops[1..], i);
      assert StopCause(fence, p, ops, i + 1);
    }
  }

  lemma {:induction false} StopRuns(step: (Loop, Op) -> Loop, ok: Loop -> bool, s: Loop, ops: seq<Op>)
    requires ok(s)
    requires forall t: Loop, o: Op {:trigger step(t, o)} :: ok(t) ==> ok(step(t, o)) && StopStep(t, o, step(t, o))
    ensures RunBy(step, s, ops).estop <==> s.estop || StopCaused(s.cfg.fence, s.pose, ops)
    decreases ops
  {
    if ops != [] {
      var next := step(s, ops[0]);
      assert StopStep(s, ops[0], next);
      StopRuns(step, ok, next, ops[1..]);
      CausedRest(s.cfg.fence, s.pose, next.pose, ops);
    }
  }

  /** After any run the stop is latched exactly if it was before, or some operation was an emergency
      stop or handled a command while the pose then held was a hard breach. */
  lemma StopExactly(s: Loop, ops: seq<Op>)
    requires s.Inv()
    ensures Run(s, ops).Inv()
    ensures Run(s, ops).estop <==> s.estop || StopCaused(s.cfg.fence, s.pose, ops)
  {
    RunInv(s, ops);
    var ok := (t: Loop) => t.Inv();
    forall t: Loop, o: Op | ok(t)
      ensures ok(StepOf(t, o)) && StopStep(t, o, StepOf(t, o))
    {
      StepStops(t, o, Step(t, o));
    }
    StopRuns(StepOf, ok, s, ops);
  }

  lemma {:induction false} RunOneMore<S, O>(step: (S, O) -> S, s: S, ops: seq<O>, o: O)
    ensures RunBy(step, s, ops + [o]) == step(RunBy(step, s, ops), o)
    decreases ops
  {
    if ops == [] {
      assert (ops + [o])[1..] == [];
    } else {
      assert (ops + [o])[1..] == ops[1..] + [o];
      RunOneMore(step, step(s, ops[0]), ops[1..], o);
    }
  }

  /** The output after any run since start-up is overridden exactly if the run and this tick hold a cause
      of the stop; otherwise it is the shaped command. A reader can tell the two apart by the output
      whenever the command was not stamped with the time of the tick. */
  lemma OverrideExactly(cfg: Config, mode: Mode, ops: seq<Op>, nowNs: u64, queue: seq<Command>)
    requires cfg.Valid() && queue != []
    ensures var s, cmd, all := Run(New(cfg, mode), ops), Newest(queue), ops + [Tick(nowNs, queue)];
            && s.Inv() && Before(s).Ready() && Before(s).Observed(nowNs, cmd).Valid()
            && var out := Step(s, Tick(nowNs, queue)).lastOut;
               && out == (if StopCaused(cfg.fence, Pose(0.0, 0.0, 0.0), all) then EmergencyCommand(cmd.seqNo, nowNs)
                          else Before(s).Shaped(nowNs, cmd))
               && (cmd.timestampNs != nowNs ==>
                     (out == EmergencyCommand(cmd.seqNo, nowNs)
                      <==> StopCaused(cfg.fence, Pose(0.0, 0.0, 0.0), all)))
  {
    var s0, tick := New(cfg, mode), Tick(nowNs, queue);
    NewOk(cfg, mode);
    StopExactly(s0, ops);
    StopExactly(s0, ops + [tick]);
    RunOneMore(StepOf, s0, ops, tick);
    TickIs(Run(s0, ops), nowNs, queue);
  }

  /** Without that, a command can look like the override though nothing is latched: an emergency command
      queued at start-up comes out unchanged. */
  lemma OverrideLookalike(cfg: Config, s: Loop, seqNo: u64, nowNs: u64, queue: seq<Command>)
    requires cfg.Valid() && s == New(cfg, FullTeleop) && queue == [EmergencyCommand(seqNo, nowNs)]
    requires cfg.fence.Evaluate(s.pose).Inside? && cfg.fence.maxAlt > 0.0
    ensures s.Inv() && !Step(s, Tick(nowNs, queue)).estop
    ensures Step(s, Tick(nowNs, queue)).lastOut == EmergencyCommand(seqNo, nowNs)
  {
    NewOk(cfg, FullTeleop);
    TickIs(s, nowNs, queue);
    var r, cmd := Before(s), Newest(queue);
    ZeroTarget(r, nowNs, cmd);
    assert r.Shaped(nowNs, cmd).axes == ZeroAxes();
  }

  /** An operator at neutral with all the authority asks for neutral. */
  lemma ZeroTarget(r: Loop, nowNs: u64, cmd: Command)
    requires r.Inv() && r.Observed(nowNs, cmd).Valid() && r.authority == 1.0 && !r.veto.active
    requires cmd.axes == ZeroAxes() && r.cfg.fence.Evaluate(r.pose).Inside?
    ensures r.Target(nowNs, cmd) == ZeroAxes()
  {
    assert r.Observed(nowNs, cmd).Compensated(cmd.axes) == ZeroAxes();
  }

  /** Two loops that agree on everything but the mode. */
  ghost predicate SameButMode(s: Loop, t: Loop) { s == t.(mode := s.mode) }

  lemma StepSameButMode(s: Loop, t: Loop, op: Op)
    requires s.Inv() && t.Inv() && SameButMode(s, t) && !op.RequestMode?
    ensures SameButMode(Step(s, op), Step(t, op))
  {
    if HandlesCommand(op) {
      TickIs(s, op.nowNs, op.queue);
      TickIs(t, op.nowNs, op.queue);
    }
  }

  lemma {:induction false} RunsSameButMode(s: Loop, t: Loop, ops: seq<Op>)
    requires s.Inv() && t.Inv() && SameButMode(s, t) && NoRequests(ops)
    ensures SameButMode(Run(s, ops), Run(t, ops))
    decreases ops
  {
    if ops != [] {
      StepSameButMode(s, t, ops[0]);
      RestNoRequests(ops);
      RunsSameButMode(Step(s, ops[0]), Step(t, ops[0]), ops[1..]);
    }
  }

  /** The mode is seen by mode requests only: over a run without one, loops that differ in it alone put
      out the same commands and latch the same stop. */
  lemma ModeUnseen(s: Loop, m: Mode, ops: seq<Op>)
    requires s.Inv() && NoRequests(ops)
    ensures Run(s.(mode := m), ops).lastOut == Run(s, ops).lastOut
    ensures Run(s.(mode := m), ops) == Run(s, ops).(mode := Run(s.(mode := m), ops).mode)
  {
    RunsSameButMode(s.(mode := m), s, ops);
  }

  // -- the veto --

  /** The target of a translational axis is within the veto's cap. */
  lemma TargetCapped(s: Loop, nowNs: u64, cmd: Command, k: int)
    requires s.Inv() && s.veto.active && Translational(k) && s.Observed(nowNs, cmd).Valid()
    ensures Abs(s.Target(nowNs, cmd)[k]) <= s.veto.Cap()
  {
    var mixed := Mixed(s.authority, s.baseline.axes, s.Observed(nowNs, cmd).Compensated(cmd.axes));
    var vetoed := s.veto.Applied(mixed);
    s.veto.AppliedShrinks(mixed);
    s.cfg.fence.FencedShrinks(s.pose, vetoed, k);
  }

  /** Slewing toward a target within `c` brings an axis one step closer to `c`, or within it. */
  lemma SlewTo(lim: Limits, prev: real, target: real, k: int, c: real)
    requires lim.Valid() && Translational(k) && Abs(target) <= c && lim.Low(k) <= prev <= lim.High(k)
    ensures Abs(lim.SlewedAxis(prev, lim.ClampedAxis(target, k), k)) <= RMax(c, Abs(prev) - lim.maxAxisStep)
  {
  }

  lemma ProcessedVeto(r: Loop, nowNs: u64, cmd: Command, k: int)
    requires r.Inv() && r.Ready() && r.Observed(nowNs, cmd).Valid() && r.veto.active && Translational(k)
    ensures Abs(r.Processed(nowNs, cmd).lastOut.axes[k])
            <= RMax(r.veto.Cap(), Abs(r.lastOut.axes[k]) - r.cfg.limits.maxAxisStep)
  {
    TargetCapped(r, nowNs, cmd, k);
    SlewTo(r.cfg.limits, r.lastOut.axes[k], r.Target(nowNs, cmd)[k], k, r.veto.Cap());
  }

  predicate HandlesCommand(op: Op) { op.Tick? && op.queue != [] }

  /** One operation under an engaged veto: a command brings an axis a step closer to the cap. */
  ghost predicate VetoStep(s: Loop, op: Op, next: Loop, k: int)
    requires Translational(k)
  {
    && next.veto == s.veto && next.cfg == s.cfg
    && Abs(next.lastOut.axes[k])
       <= if HandlesCommand(op) then RMax(s.veto.Cap(), Abs(s.lastOut.axes[k]) - s.cfg.limits.maxAxisStep)
          else Abs(s.lastOut.axes[k])
  }

  lemma StepVeto(s: Loop, op: Op, next: Loop, k: int)
    requires s.Inv() && s.veto.active && Translational(k) && next == Step(s, op)
    requires !op.EngageVeto? && !op.DisengageVeto?
    ensures VetoStep(s, op, next, k)
  {
    if HandlesCommand(op) {
      TickIs(s, op.nowNs, op.queue);
      ProcessedVeto(Before(s), op.nowNs, Newest(op.queue), k);
    }
  }

  predicate KeepsVeto(ops: seq<Op>) {
    forall i :: 0 <= i < |ops| ==> !ops[i].EngageVeto? && !ops[i].DisengageVeto?
  }

  /** How many ticks of the run handle a command. */
  function Commands(ops: seq<Op>): nat
    decreases ops
  {
    if ops == [] then 0 else Commands(ops[1..]) + if HandlesCommand(ops[0]) then 1 else 0
  }

  /** What an axis at `x` can still be after `n` commands. */
  function VetoBound(cap: real, x: real, step: real, n: nat): real {
    RMax(cap, Abs(x) - n as real * step)
  }

  lemma BoundStep(cap: real, x: real, y: real, step: real, n: nat, handled: bool)
    requires step >= 0.0
    requires Abs(y) <= if handled then RMax(cap, Abs(x) - step) else Abs(x)
    ensures VetoBound(cap, y, step, n) <= VetoBound(cap, x, step, if handled then n + 1 else n)
  {
    Product(n as real, step);
    OneMore(n, step);
    Bounds(cap, Abs(x), Abs(y), step, n as real * step, handled);
    assert VetoBound(cap, y, step, n) == RMax(cap, Abs(y) - n as real * step);
  }

  lemma Bounds(cap: real, ax: real, ay: real, step: real, p: real, handled: bool)
    requires step >= 0.0 && p >= 0.0
    requires ay <= if handled then RMax(cap, ax - step) else ax
    ensures RMax(cap, ay - p) <= RMax(cap, if handled then ax - (p + step) else ax - p)
  {
  }

  lemma OneMore(n: nat, step: real)
    ensures (n + 1) as real * step == n as real * step + step
  {
    assert (n + 1) as real == n as real + 1.0;
  }

  lemma {:induction false} VetoRuns(step: (Loop, Op) -> Loop, ok: Loop -> bool, s: Loop, ops: seq<Op>, k: int)
    requires Translational(k) && KeepsVeto(ops) && ok(s) && s.cfg.limits.Valid()
    requires forall t: Loop, o: Op {:trigger step(t, o)} ::
               ok(t) && !o.EngageVeto? && !o.DisengageVeto? ==> ok(step(t, o)) && VetoStep(t, o, step(t, o), k)
    ensures Abs(RunBy(step, s, ops).lastOut.axes[k])
            <= VetoBound(s.veto.Cap(), s.lastOut.axes[k], s.cfg.limits.maxAxisStep, Commands(ops))
    decreases ops
  {
    if ops != [] {
      var next, rest := step(s, ops[0]), ops[1..];
      assert KeepsVeto(rest) by { assert forall i :: 0 <= i < |rest| ==> rest[i] == ops[i + 1]; }
      assert VetoStep(s, ops[0], next, k);
      VetoRuns(step, ok, next, rest, k);
      BoundStep(s.veto.Cap(), s.lastOut.axes[k], next.lastOut.axes[k], s.cfg.limits.maxAxisStep, Commands(rest),
                HandlesCommand(ops[0]));
    }
  }

  ghost predicate Vetoed(t: Loop) { t.Inv() && t.veto.active }

  lemma VetoedStep(t: Loop, o: Op, k: int)
    requires Vetoed(t) && !o.EngageVeto? && !o.DisengageVeto? && Translational(k)
    ensures Vetoed(StepOf(t, o)) && VetoStep(t, o, StepOf(t, o), k)
  {
    StepVeto(t, o, Step(t, o), k);
  }

  /** While the veto stays engaged, whatever else happens, each translational axis shrinks by one step
      per command until it is within the cap, and stays there. */
  lemma VetoConverges(s: Loop, ops: seq<Op>, k: int)
    requires s.Inv() && s.veto.active && Translational(k) && KeepsVeto(ops)
    ensures Abs(Run(s, ops).lastOut.axes[k])
            <= VetoBound(s.veto.Cap(), s.lastOut.axes[k], s.cfg.limits.maxAxisStep, Commands(ops))
  {
    forall t: Loop, o: Op | Vetoed(t) && !o.EngageVeto? && !o.DisengageVeto?
      ensures Vetoed(StepOf(t, o)) && VetoStep(t, o, StepOf(t, o), k)
    {
      VetoedStep(t, o, k);
    }
    VetoRuns(StepOf, Vetoed, s, ops, k);
  }

  lemma BoundReached(cap: real, x: real, step: real, n: nat)
    requires n as real * step >= Abs(x) - cap
    ensures VetoBound(cap, x, step, n) == cap
  {
  }

  /** Enough commands to cover the distance bring every translational output within the cap. */
  lemma VetoReached(s: Loop, ops: seq<Op>, k: int, n: nat, cap: real, x: real, step: real)
    requires s.Inv() && s.veto.active && Translational(k) && KeepsVeto(ops)
    requires n == Commands(ops) && cap == s.veto.Cap() && x == s.lastOut.axes[k] && step == s.cfg.limits.maxAxisStep
    requires n as real * step >= Abs(x) - cap
    ensures Abs(Run(s, ops).lastOut.axes[k]) <= cap
  {
    VetoConverges(s, ops, k);
    BoundReached(cap, x, step, n);
  }

  // -- authority --

  /** Ticks move the authority toward the blend's target, never past it and never back. */
  lemma AdvanceToward(s: Loop)
    requires s.Inv() && s.blend.Some?
    ensures s.Advanced().Inv() && s.blend.value.Toward(s.authority, s.Advanced().authority)
  {
    AdvanceKeeps(s);
    TickPositive(s.cfg);
    s.blend.value.AdvanceMoves(s.cfg.TickS());
  }

  lemma TickAuthority(s: Loop, nowNs: u64, queue: seq<Command>)
    requires s.Inv() && s.blend.Some?
    ensures s.blend.value.Toward(s.authority, Step(s, Tick(nowNs, queue)).authority)
  {
    AdvanceToward(s);
    if queue != [] {
      AdvanceToward(s.Advanced());
      TickIs(s, nowNs, queue);
    }
  }

  predicate NoRequests(ops: seq<Op>) {
    forall i :: 0 <= i < |ops| ==> !ops[i].RequestMode?
  }

  lemma RestNoRequests(ops: seq<Op>)
    requires ops != [] && NoRequests(ops)
    ensures NoRequests(ops[1..])
  {
    var rest := ops[1..];
    assert forall i :: 0 <= i < |rest| ==> rest[i] == ops[i + 1];
  }

  /** How often an operation advances the blend: once for a tick, and once more if it has a command. */
  function AdvancesOf(op: Op): nat {
    if HandlesCommand(op) then 2 else if op.Tick? then 1 else 0
  }

  function Advances(ops: seq<Op>): nat
    decreases ops
  {
    if ops == [] then 0 else AdvancesOf(ops[0]) + Advances(ops[1..])
  }

  /** What an operation other than a mode request does to blend and authority. */
  ghost predicate BlendStep(s: Loop, op: Op, next: Loop) {
    && next.cfg == s.cfg
    && next.blend.Some? == s.blend.Some?
    && (s.blend.None? ==> next.authority == s.authority)
    && (s.blend.Some? ==> next.blend.value == s.blend.value.AdvancedBy(AdvancesOf(op), s.cfg.TickS()))
  }

  lemma StepBlend(s: Loop, op: Op, next: Loop)
    requires s.Inv() && !op.RequestMode? && next == Step(s, op)
    ensures BlendStep(s, op, next)
  {
    if op.Tick? {
      var dt := s.cfg.TickS();
      if op.queue != [] { TickIs(s, op.nowNs, op.queue); }
      if s.blend.Some? {
        var b := s.blend.value;
        assert b.AdvancedBy(0, dt) == b;
        assert b.AdvancedBy(1, dt) == b.Advanced(dt);
        assert b.AdvancedBy(2, dt) == b.Advanced(dt).Advanced(dt);
      }
    }
  }

  lemma {:induction false} AdvancedTwice(b: Blend, m: nat, n: nat, dtS: real)
    ensures b.AdvancedBy(m, dtS).AdvancedBy(n, dtS) == b.AdvancedBy(m + n, dtS)
    decreases n
  {
    if n > 0 { AdvancedTwice(b, m, n - 1, dtS); }
  }

  lemma {:induction false} BlendRunsBy(step: (Loop, Op) -> Loop, ok: Loop -> bool, s: Loop, ops: seq<Op>)
    requires NoRequests(ops) && ok(s)
    requires forall t: Loop, o: Op {:trigger step(t, o)} ::
               ok(t) && !o.RequestMode? ==> ok(step(t, o)) && BlendStep(t, o, step(t, o))
    ensures ok(RunBy(step, s, ops))
    ensures var r := RunBy(step, s, ops);
            && (s.blend.None? ==> r.authority == s.authority)
            && r.blend == if s.blend.None? then None
                          else Some(s.blend.value.AdvancedBy(Advances(ops), s.cfg.TickS()))
    decreases ops
  {
    if ops != [] {
      var next, rest := step(s, ops[0]), ops[1..];
      RestNoRequests(ops);
      assert BlendStep(s, ops[0], next);
      BlendRunsBy(step, ok, next, rest);
      if s.blend.Some? { AdvancedTwice(s.blend.value, AdvancesOf(ops[0]), Advances(rest), s.cfg.TickS()); }
    }
  }

  /** Over a run without mode requests the blend advances as often as the operations say. */
  lemma BlendRuns(s: Loop, ops: seq<Op>)
    requires s.Inv() && NoRequests(ops)
    ensures var r := Run(s, ops);
            && r.Inv()
            && (s.blend.None? ==> r.authority == s.authority)
            && r.blend == if s.blend.None? then None
                          else Some(s.blend.value.AdvancedBy(Advances(ops), s.cfg.TickS()))
  {
    var ok := (t: Loop) => t.Inv();
    forall t: Loop, o: Op | ok(t) && !o.RequestMode?
      ensures ok(StepOf(t, o)) && BlendStep(t, o, StepOf(t, o))
    {
      StepBlend(t, o, Step(t, o));
    }
    BlendRunsBy(StepOf, ok, s, ops);
  }

  /** Enough advances to cover the time left. */
  predicate Covers(b: Blend, n: nat, dtS: real) { n as real * dtS >= b.durationS - b.elapsedS }

  /** A running blend that has somewhere to go is at its target exactly once its advances cover the time
      it has left. A tick with a command counts twice, so with one every tick that takes half of it. */
  lemma BlendReaches(s: Loop, ops: seq<Op>)
    requires s.Inv() && s.blend.Some? && NoRequests(ops)
    ensures var b := s.blend.value;
            Run(s, ops).authority == b.to <==> b.from == b.to || Covers(b, Advances(ops), s.cfg.TickS())
  {
    BlendRuns(s, ops);
    TickPositive(s.cfg);
    AtTarget(s.blend.value, Advances(ops), s.cfg.TickS(), Run(s, ops).authority);
  }

  lemma AtTarget(b: Blend, n: nat, dtS: real, w: real)
    requires b.Valid() && dtS >= 0.0 && w == b.AdvancedBy(n, dtS).Weight()
    ensures w == b.to <==> b.from == b.to || Covers(b, n, dtS)
  {
    b.ReachesTarget(n, dtS);
  }

  /** A granted mode request ends at the mode's authority exactly if it starts a blend, or the
      authority (or the target of the blend already running) is that one anyway. A request made as the
      running blend passes the new target's value starts none, and the old blend goes on past it. */
  lemma ModeReached(s: Loop, m: Mode, s1: Loop, ops: seq<Op>)
    requires s.Inv() && Allows(s.mode, m) && NoRequests(ops) && s1 == Step(s, RequestMode(m))
    requires s1.blend.Some? ==> Covers(s1.blend.value, Advances(ops), s1.cfg.TickS())
    ensures s1.mode == m
    ensures Run(s1, ops).authority == AuthorityTarget(m)
            <==> s.StartsBlend(m)
                 || (if s.blend.Some? then s.blend.value.to == AuthorityTarget(m) else s.authority == AuthorityTarget(m))
  {
    if s1.blend.Some? { BlendReaches(s1, ops); } else { BlendRuns(s1, ops); }
  }

  /** A mode request for emergency stop is always granted, but it is no emergency stop: after it every
      run latches the stop exactly if it would have without the request, so no output is overridden for
      it. What it does is hand over: once the blend it starts is covered the operator's authority is 0,
      and what is asked for is the autonomy's axes, whatever the operator sends. */
  lemma RequestedStop(s: Loop, s1: Loop, ops: seq<Op>)
    requires s.Inv() && s1 == Step(s, RequestMode(EmergencyStop))
    ensures s1.mode == EmergencyStop
    ensures Run(s1, ops).estop == Run(s, ops).estop
    ensures Run(s1, ops).pose == Run(s, ops).pose && Run(s1, ops).cfg == Run(s, ops).cfg
    ensures NoRequests(ops) && s.StartsBlend(EmergencyStop) && Covers(s1.blend.value, Advances(ops), s.cfg.TickS()) ==>
              var r := Run(s1, ops);
              r.authority == 0.0 && forall a: Axes :: Mixed(r.authority, r.baseline.axes, a) == r.baseline.axes
  {
    StopExactly(s, ops);
    StopExactly(s1, ops);
    PoseKept(s, ops);
    PoseKept(s1, ops);
    if NoRequests(ops) && s.StartsBlend(EmergencyStop) && Covers(s1.blend.value, Advances(ops), s.cfg.TickS()) {
      BlendReaches(s1, ops);
      AutonomyAlone(Run(s1, ops).baseline.axes);
    }
  }

  /** Pose and configuration depend on the operations alone. */
  lemma PoseKept(s: Loop, ops: seq<Op>)
    requires s.Inv()
    ensures Run(s, ops).pose == PoseAt(s.pose, ops, |ops|) && Run(s, ops).cfg == s.cfg
  {
    RunInv(s, ops);
    var ok := (t: Loop) => t.Inv();
    forall t: Loop, o: Op | ok(t)
      ensures ok(StepOf(t, o)) && StopStep(t, o, StepOf(t, o))
    {
      StepStops(t, o, Step(t, o));
    }
    PoseRuns(StepOf, ok, s, ops);
  }

  lemma {:induction false} PoseRuns(step: (Loop, Op) -> Loop, ok: Loop -> bool, s: Loop, ops: seq<Op>)
    requires ok(s)
    requires forall t: Loop, o: Op {:trigger step(t, o)} :: ok(t) ==> ok(step(t, o)) && StopStep(t, o, step(t, o))
    ensures RunBy(step, s, ops).pose == PoseAt(s.pose, ops, |ops|)
    decreases ops
  {
    if ops != [] {
      assert StopStep(s, ops[0], step(s, ops[0]));
      PoseRuns(step, ok, step(s, ops[0]), ops[1..]);
      PoseAtRest(s.pose, step(s, ops[0]).pose, ops, |ops|);
    }
  }

  lemma AutonomyAlone(base: Axes)
    ensures forall a: Axes :: Mixed(0.0, base, a) == base
  {
    forall a: Axes
      ensures Mixed(0.0, base, a) == base
    {
      assert forall k :: 0 <= k < 6 ==> Mixed(0.0, base, a)[k] == base[k];
    }
  }

  lemma HalfWay()
    ensures Blend(0.0, 1.0, 1.0, 0.5).Weight() == 0.5
  {
    assert Quintic(0.5) == 0.5;
    assert Smootherstep(0.5) == 0.5;
  }

  /** Halfway from assist to full teleoperation, a granted return to assist is swallowed: the loop ends
      in assist mode with full authority to the operator. */
  lemma RequestSwallowed(s: Loop, s1: Loop)
    requires s.Inv() && s.mode == FullTeleop && s.blend == Some(Blend(0.0, 1.0, 1.0, 0.5))
    requires s1 == Step(s, RequestMode(Assist)) && s.cfg.TickS() == 0.5
    ensures s.authority == 0.5 && s1.mode == Assist
    ensures Run(s1, [Tick(0, [])]).authority == 1.0
  {
    HalfWay();
    assert s1 == s.(mode := Assist);
    var ops := [Tick(0, [])];
    assert Advances(ops) == 1 by { assert ops[1..] == []; }
    var b := Blend(0.0, 1.0, 1.0, 0.5);
    BlendRuns(s1, ops);
    assert b.AdvancedBy(1, 0.5) == Blend(0.0, 1.0, 1.0, 1.0) by { assert b.AdvancedBy(0, 0.5) == b; }
    Run(s1, ops).blend.value.WeightRange();
  }

  /** That state is reached: from start-up, assist and then full teleoperation are requested at once,
      and one tick of half the transition passes. */
  lemma SwallowReached(cfg: Config) returns (s: Loop)
    requires cfg.Valid() && cfg.tickPeriodUs == 500_000 && cfg.transitionS == 1.0
    ensures s == Run(New(cfg, Auto), [RequestMode(Assist), RequestMode(FullTeleop), Tick(0, [])])
    ensures s.Inv() && s.mode == FullTeleop && s.blend == Some(Blend(0.0, 1.0, 1.0, 0.5))
  {
    var ops := [RequestMode(Assist), RequestMode(FullTeleop), Tick(0, [])];
    NewOk(cfg, Auto);
    var s0 := New(cfg, Auto);
    var s1 := Step(s0, ops[0]);
    var s2 := Step(s1, ops[1]);
    BlendStart(s1);
    s := Step(s2, ops[2]);
    ThreeSteps(StepOf, s0, ops);
  }

  lemma BlendStart(s1: Loop)
    requires s1.Inv() && s1.mode == Assist && s1.authority == 0.0 && s1.cfg.transitionS == 1.0
    ensures s1.ModeRequested(FullTeleop).blend == Some(Blend(0.0, 1.0, 1.0, 0.0))
    ensures s1.ModeRequested(FullTeleop).mode == FullTeleop
  {
  }

  lemma ThreeSteps<S, O>(step: (S, O) -> S, s: S, ops: seq<O>)
    requires |ops| == 3
    ensures RunBy(step, s, ops) == step(step(step(s, ops[0]), ops[1]), ops[2])
  {
    var s1, s2 := step(s, ops[0]), step(step(s, ops[0]), ops[1]);
    assert ops[1..][1..] == ops[2..] && ops[2..][1..] == [];
    assert RunBy(step, s, ops) == RunBy(step, s1, ops[1..]) == RunBy(step, s2, ops[2..]);
    assert RunBy(step, s2, ops[2..]) == RunBy(step, step(s2, ops[2]), []);
  }
}
