/** The safety loop: its state, its operations, and what one of them keeps. */
module SafetySteps {
  import opened Safety
  import opened Words

  // `SafetyRuns` has whole runs and `SafetyLoop` the loop object.

  datatype Config = Config(fence: Fence, limits: Limits, transitionS: real, tickPeriodUs: u64, maxLatencyNs: u64) {
    function TickS(): real { tickPeriodUs as real / 1_000_000.0 }

    ghost predicate Valid() { limits.Valid() && IsHypot(fence.hypot) }
  }

  /** The default transition table. */
  predicate Allows(from: Mode, to: Mode) {
    || to.EmergencyStop?
    || (from.Auto? && to.Assist?) || (from.Assist? && to.Auto?)
    || (from.Assist? && to.FullTeleop?) || (from.FullTeleop? && to.Assist?)
    || (from.EmergencyStop? && to.Assist?)
  }

  datatype Op =
    | SetPose(p: Pose)
    | SetBaseline(c: Command)
    | RequestMode(m: Mode)
    | Stop
    | EngageVeto(cap: real)
    | DisengageVeto
    | Tick(nowNs: u64, queue: seq<Command>)

  const BRAKE_A: real := 3.45
  const ESC_TAU_S: real := 0.15
  const CEILING_RELEASE_FRAC: real := 0.90
  const DESCEND_PIN_THROTTLE: real := 0.30

  datatype Loop = Loop(
    cfg: Config, mode: Mode, authority: real, blend: Option<Blend>, latency: Latency,
    baseline: Command, lastOut: Command, pose: Pose, estop: bool, veto: Veto,
    prevZ: real, havePrevZ: bool, vzEst: real, brake: bool)
  {
    // -- operations other than the tick --

    function PoseSet(p: Pose): Loop {
      var v := if havePrevZ && cfg.TickS() > 0.0 then (p.z - prevZ) / cfg.TickS() else vzEst;
      this.(vzEst := v, prevZ := p.z, havePrevZ := true, pose := p)
    }

    predicate StartsBlend(m: Mode) { Abs(AuthorityTarget(m) - authority) > 0.000_001 }

    function ModeRequested(m: Mode): Loop {
      if !Allows(mode, m) then this
      else if StartsBlend(m) then
        this.(mode := m, blend := Some(Blend.New(authority, AuthorityTarget(m), cfg.transitionS)))
      else this.(mode := m)
    }

    // -- the tick --

    /** One advance of the running blend. */
    function Advanced(): Loop
      requires blend.Some? ==> blend.value.durationS > 0.0
    {
      if blend.None? then this
      else
        var b := blend.value.Advanced(cfg.TickS());
        this.(blend := Some(b), authority := b.Weight())
    }

    predicate Ready() {
      cfg.limits.Valid() && latency.Valid() && (blend.Some? ==> blend.value.durationS > 0.0)
    }

    function Observed(nowNs: u64, cmd: Command): Latency {
      latency.Observed(SatSub(nowNs, cmd.timestampNs))
    }

    /** The predicted climb reaches the ceiling. */
    predicate ReachesCeiling() {
      pose.z + (vzEst * vzEst / (2.0 * BRAKE_A) + vzEst * ESC_TAU_S) >= cfg.fence.maxAlt
    }

    function BrakeNext(): bool {
      (brake || ReachesCeiling()) && !(vzEst <= 0.5 && pose.z <= cfg.fence.maxAlt * CEILING_RELEASE_FRAC)
    }

    /** The throttle under the predictive brake. */
    function Pinned(t: real): real {
      var t := if BrakeNext() && t > DESCEND_PIN_THROTTLE then DESCEND_PIN_THROTTLE else t;
      if ReachesCeiling() && t > THROTTLE_NEUTRAL then DESCEND_PIN_THROTTLE else t
    }

    predicate Breach() { cfg.fence.Evaluate(pose).HardBreach? }

    /** The operator's axes after latency compensation, authority mix, veto and fence. */
    function Target(nowNs: u64, cmd: Command): Axes
      requires Ready() && Observed(nowNs, cmd).Valid()
    {
      var mixed := Mixed(authority, baseline.axes, Observed(nowNs, cmd).Compensated(cmd.axes));
      var vetoed := veto.Applied(mixed);
      if cfg.fence.Evaluate(pose).Inside? then vetoed else cfg.fence.Fenced(pose, vetoed)
    }

    /** The command before the emergency override. */
    function Shaped(nowNs: u64, cmd: Command): Command
      requires Ready() && Observed(nowNs, cmd).Valid()
    {
      var limited := cfg.limits.Applied(lastOut.axes, Target(nowNs, cmd));
      cmd.(axes := limited[THROTTLE := Pinned(limited[THROTTLE])],
           mode := MixedMode(authority, baseline.mode, cmd.mode))
    }

    function Out(nowNs: u64, cmd: Command): Command
      requires Ready() && Observed(nowNs, cmd).Valid()
    {
      if estop || Breach() then EmergencyCommand(cmd.seqNo, nowNs) else Shaped(nowNs, cmd)
    }

    /** The newest command goes through the pipeline; the blend has advanced for the tick and for it. */
    function Processed(nowNs: u64, cmd: Command): Loop
      requires Ready() && Observed(nowNs, cmd).Valid()
    {
      this.(latency := Observed(nowNs, cmd),
            mode := if Breach() && !estop then EmergencyStop else mode,
            estop := estop || Breach(),
            brake := BrakeNext(),
            lastOut := Out(nowNs, cmd))
    }

    ghost predicate Inv() {
      && cfg.Valid() && latency.Valid()
      && 0.0 <= authority <= 1.0
      && (blend.Some? ==> blend.value.Valid() && authority == blend.value.Weight())
      && cfg.limits.Within(lastOut.axes)
    }
  }

  function New(cfg: Config, mode: Mode): Loop {
    Loop(cfg, mode, AuthorityTarget(mode), None, Latency.New(0.2, cfg.maxLatencyNs), Zeroed(Auto), Zeroed(mode),
         Pose(0.0, 0.0, 0.0), false, Veto(false, 0.0), 0.0, false, 0.0, false)
  }

  /** The newest of the drained commands. */
  function Newest(queue: seq<Command>): Command
    requires queue != []
  {
    queue[|queue| - 1]
  }

  ghost function Step(s: Loop, op: Op): (s': Loop)
    requires s.Inv()
    ensures s'.Inv() && s'.cfg == s.cfg
  {
    match op
    case SetPose(p) => s.PoseSet(p)
    case SetBaseline(c) => s.(baseline := c)
    case RequestMode(m) => RequestKeeps(s, m); s.ModeRequested(m)
    case Stop => s.(estop := true, mode := EmergencyStop)
    case EngageVeto(cap) => s.(veto := s.veto.Engaged(cap))
    case DisengageVeto => s.(veto := s.veto.Disengaged())
    case Tick(nowNs, queue) =>
      AdvanceKeeps(s);
      if queue == [] then s.Advanced()
      else
        AdvanceKeeps(s.Advanced());
        ProcessKeeps(s.Advanced().Advanced(), nowNs, Newest(queue));
        s.Advanced().Advanced().Processed(nowNs, Newest(queue))
  }

  // ---- every operation keeps the invariant ----

  lemma RequestKeeps(s: Loop, m: Mode)
    requires s.Inv()
    ensures s.ModeRequested(m).Inv()
  {
    if Allows(s.mode, m) && s.StartsBlend(m) {
      var b := Blend.New(s.authority, AuthorityTarget(m), s.cfg.transitionS);
      b.StartsAtFrom();
    }
  }

  lemma TickPositive(cfg: Config)
    ensures cfg.TickS() >= 0.0
  {
  }

  lemma AdvanceKeeps(s: Loop)
    requires s.Inv()
    ensures s.Advanced().Inv()
  {
    TickPositive(s.cfg);
    if s.blend.Some? {
      s.blend.value.AdvanceMoves(s.cfg.TickS());
      s.blend.value.Advanced(s.cfg.TickS()).WeightRange();
    }
  }

  lemma NewOk(cfg: Config, mode: Mode)
    requires cfg.Valid()
    ensures New(cfg, mode).Inv()
  {
  }

  /** The limited axes stay in the envelope under the brake. */
  lemma PinKeeps(s: Loop, a: Axes)
    requires s.cfg.limits.Valid() && s.cfg.limits.Within(a)
    ensures s.cfg.limits.Within(a[THROTTLE := s.Pinned(a[THROTTLE])])
    ensures s.Pinned(a[THROTTLE]) <= a[THROTTLE]
    ensures s.BrakeNext() ==> s.Pinned(a[THROTTLE]) <= 0.30
    ensures s.ReachesCeiling() ==> s.Pinned(a[THROTTLE]) <= 0.5
  {
  }

  lemma ProcessKeeps(s: Loop, nowNs: u64, cmd: Command)
    requires s.Inv()
    ensures s.Ready() && s.Observed(nowNs, cmd).Valid() && s.Processed(nowNs, cmd).Inv()
  {
    s.latency.ObservedBetween(SatSub(nowNs, cmd.timestampNs));
    var limited := s.cfg.limits.Applied(s.lastOut.axes, s.Target(nowNs, cmd));
    LimitedWithin(s, nowNs, cmd);
    PinKeeps(s, limited);
  }

  lemma LimitedWithin(s: Loop, nowNs: u64, cmd: Command)
    requires s.Inv() && s.Observed(nowNs, cmd).Valid()
    ensures s.cfg.limits.Within(s.cfg.limits.Applied(s.lastOut.axes, s.Target(nowNs, cmd)))
  {
    var target := s.Target(nowNs, cmd);
    forall k | 0 <= k < 6
      ensures s.cfg.limits.Low(k) <= s.cfg.limits.Applied(s.lastOut.axes, target)[k] <= s.cfg.limits.High(k)
    {
      s.cfg.limits.AppliedEnvelope(s.lastOut.axes, target, k);
    }
  }

  // ---- the envelope of one tick ----

  /** The state in which a tick with commands runs its pipeline. */
  ghost function Before(s: Loop): (r: Loop)
    requires s.Inv()
    ensures r.Inv() && r == s.(blend := r.blend, authority := r.authority)
  {
    AdvanceKeeps(s);
    AdvanceKeeps(s.Advanced());
    s.Advanced().Advanced()
  }

  lemma TickIs(s: Loop, nowNs: u64, queue: seq<Command>)
    requires s.Inv() && queue != []
    ensures var r := Before(s);
            && r.Ready() && r.Observed(nowNs, Newest(queue)).Valid()
            && Step(s, Tick(nowNs, queue)) == r.Processed(nowNs, Newest(queue))
  {
    ProcessKeeps(Before(s), nowNs, Newest(queue));
  }

  /** What an output obeys: the absolute limits; the slew from the previous output while not stopped;
      the brake, and with neither stop nor brake the throttle's own slew. */
  predicate Envelope(prev: Loop, next: Loop, k: int)
    requires 0 <= k < 6
  {
    var lim, x, y := prev.cfg.limits, prev.lastOut.axes, next.lastOut.axes;
    && lim.Low(k) <= y[k] <= lim.High(k)
    && (!next.estop && k != THROTTLE ==> Abs(y[k] - x[k]) <= lim.maxAxisStep)
    && y[THROTTLE] <= x[THROTTLE] + lim.maxThrottleStep
    && (next.brake ==> y[THROTTLE] <= DESCEND_PIN_THROTTLE)
    && (prev.ReachesCeiling() ==> y[THROTTLE] <= THROTTLE_NEUTRAL)
    && (!next.estop && !next.brake && !prev.ReachesCeiling() ==>
          Abs(y[THROTTLE] - x[THROTTLE]) <= lim.maxThrottleStep)
  }

  lemma ShapedEnvelope(r: Loop, nowNs: u64, cmd: Command, target: Axes, k: int)
    requires r.cfg.limits.Valid() && r.cfg.limits.Within(r.lastOut.axes) && 0 <= k < 6
    ensures var lim, x, a := r.cfg.limits, r.lastOut.axes, r.cfg.limits.Applied(r.lastOut.axes, target);
            var y := a[THROTTLE := r.Pinned(a[THROTTLE])];
            && lim.Low(k) <= y[k] <= lim.High(k)
            && (k != THROTTLE ==> Abs(y[k] - x[k]) <= lim.maxAxisStep)
            && y[THROTTLE] <= x[THROTTLE] + lim.maxThrottleStep
            && (r.BrakeNext() ==> y[THROTTLE] <= DESCEND_PIN_THROTTLE)
            && (r.ReachesCeiling() ==> y[THROTTLE] <= THROTTLE_NEUTRAL)
            && (!r.BrakeNext() && !r.ReachesCeiling() ==> Abs(y[THROTTLE] - x[THROTTLE]) <= lim.maxThrottleStep)
  {
    r.cfg.limits.AppliedEnvelope(r.lastOut.axes, target, k);
    r.cfg.limits.AppliedEnvelope(r.lastOut.axes, target, THROTTLE);
    PinShrinks(r, r.cfg.limits.Applied(r.lastOut.axes, target)[THROTTLE]);
  }

  lemma PinShrinks(r: Loop, t: real)
    requires t >= 0.0
    ensures 0.0 <= r.Pinned(t) <= t
    ensures r.BrakeNext() ==> r.Pinned(t) <= DESCEND_PIN_THROTTLE
    ensures r.ReachesCeiling() ==> r.Pinned(t) <= THROTTLE_NEUTRAL
    ensures !r.BrakeNext() && !r.ReachesCeiling() ==> r.Pinned(t) == t
  {
  }

  lemma ProcessedEnvelope(r: Loop, nowNs: u64, cmd: Command, k: int)
    requires r.Inv() && r.Ready() && r.Observed(nowNs, cmd).Valid() && 0 <= k < 6
    ensures Envelope(r, r.Processed(nowNs, cmd), k)
  {
    ShapedEnvelope(r, nowNs, cmd, r.Target(nowNs, cmd), k);
  }

  /** The envelope does not depend on the blend. */
  lemma SameEnvelope(s: Loop, r: Loop, next: Loop, k: int)
    requires 0 <= k < 6 && r == s.(blend := r.blend, authority := r.authority) && Envelope(r, next, k)
    ensures Envelope(s, next, k)
  {
  }

  /** Every output of every tick, whatever the commands, poses, modes and blends. */
  lemma TickEnvelope(s: Loop, nowNs: u64, queue: seq<Command>, next: Loop, k: int)
    requires s.Inv() && queue != [] && 0 <= k < 6 && next == Step(s, Tick(nowNs, queue))
    ensures Envelope(s, next, k)
  {
    var r := Before(s);
    TickIs(s, nowNs, queue);
    ProcessedEnvelope(r, nowNs, Newest(queue), k);
    SameEnvelope(s, r, next, k);
  }

  /** Each axis of the mix lies between autonomy and operator, at an authority in [0, 1]. */
  lemma MixEnvelope(s: Loop, nowNs: u64, cmd: Command, a: Axes, k: int)
    requires s.Inv() && 0 <= k < 6
    requires s.Observed(nowNs, cmd).Valid() && a == s.Observed(nowNs, cmd).Compensated(cmd.axes)
    ensures RMin(s.baseline.axes[k], a[k]) <= Mixed(s.authority, s.baseline.axes, a)[k]
            <= RMax(s.baseline.axes[k], a[k])
  {
    MixedBetween(s.authority, s.baseline.axes, a, k);
  }

  /** What is asked for on an axis is no further from neutral than the autonomy or the operator had it:
      compensation, mix, veto and fence add nothing. */
  lemma TargetBounded(s: Loop, nowNs: u64, cmd: Command, k: int)
    requires s.Inv() && s.Ready() && s.Observed(nowNs, cmd).Valid() && 0 <= k < 6 && k != THROTTLE
    ensures Abs(s.Target(nowNs, cmd)[k]) <= RMax(Abs(s.baseline.axes[k]), Abs(cmd.axes[k]))
  {
    var lat := s.Observed(nowNs, cmd);
    var a := lat.Compensated(cmd.axes);
    var mixed := Mixed(s.authority, s.baseline.axes, a);
    lat.CompensatedShrinks(cmd.axes, k);
    MixEnvelope(s, nowNs, cmd, a, k);
    s.veto.AppliedShrinks(mixed);
    s.cfg.fence.FencedShrinks(s.pose, s.veto.Applied(mixed), k);
  }

  /** No output goes further from neutral on an axis than the last output, the autonomy and the operator. */
  predicate Bounded(prev: Loop, cmd: Command, next: Loop, k: int)
    requires 0 <= k < 6
  {
    k != THROTTLE ==>
      Abs(next.lastOut.axes[k])
      <= RMax(Abs(prev.lastOut.axes[k]), RMax(Abs(prev.baseline.axes[k]), Abs(cmd.axes[k])))
  }

  lemma TickBounded(s: Loop, nowNs: u64, queue: seq<Command>, next: Loop, k: int)
    requires s.Inv() && queue != [] && 0 <= k < 6 && next == Step(s, Tick(nowNs, queue))
    ensures Bounded(s, Newest(queue), next, k)
  {
    TickIs(s, nowNs, queue);
    if k != THROTTLE {
      var r, cmd := Before(s), Newest(queue);
      TargetBounded(r, nowNs, cmd, k);
      LimitedBounded(r.cfg.limits, r.lastOut.axes, r.Target(nowNs, cmd), k);
    }
  }

  lemma LimitedBounded(lim: Limits, prev: Axes, target: Axes, k: int)
    requires lim.Valid() && lim.Within(prev) && 0 <= k < 6 && k != THROTTLE
    ensures Abs(lim.Applied(prev, target)[k]) <= RMax(Abs(prev[k]), Abs(target[k]))
  {
    lim.AppliedEnvelope(prev, target, k);
  }
}
