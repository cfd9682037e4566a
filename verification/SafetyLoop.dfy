/** The safety loop with the code of the source, between its input and output rings. */
module SafetyLoop {
  import opened Safety
  import opened SafetySteps
  import opened Words
  import Spsc

  /** The last two steps only look at parts of the state the first ones leave alone. */
  lemma ShapedFrom(r: Loop, fenced: Loop, nowNs: u64, cmd: Command, y: Axes)
    requires r.Inv() && r.Ready() && r.Observed(nowNs, cmd).Valid()
    requires fenced == r.(latency := fenced.latency, mode := fenced.mode, estop := fenced.estop)
    requires var a := r.cfg.limits.Applied(r.lastOut.axes, r.Target(nowNs, cmd));
             y == a[THROTTLE := fenced.Pinned(a[THROTTLE])]
    ensures r.Shaped(nowNs, cmd) == cmd.(axes := y, mode := MixedMode(r.authority, r.baseline.mode, cmd.mode))
    ensures fenced.BrakeNext() == r.BrakeNext()
  {
    var a := r.cfg.limits.Applied(r.lastOut.axes, r.Target(nowNs, cmd));
    SamePin(r, fenced, a[THROTTLE]);
  }

  lemma SamePin(r: Loop, fenced: Loop, t: real)
    requires fenced == r.(latency := fenced.latency, mode := fenced.mode, estop := fenced.estop)
    ensures fenced.Pinned(t) == r.Pinned(t) && fenced.BrakeNext() == r.BrakeNext()
  {
  }

  // ---- the loop object ----

  class SafetyLoop {
    const input: Spsc.SpscRing<Command>
    const output: Spsc.SpscRing<Command>
    const cfg: Config
    var mode: Mode               // of the shared state machine
    var authority: real
    var blend: Option<Blend>
    var latency: Latency
    var baseline: Command
    var lastOut: Command
    var pose: Pose
    var estopLatched: bool
    var droppedOut: nat
    var veto: Veto
    var prevZ: real
    var havePrevZ: bool
    var vzEst: real
    var brakeLatched: bool

    ghost function State(): Loop
      reads this
    {
      Loop(cfg, mode, authority, blend, latency, baseline, lastOut, pose, estopLatched, veto,
           prevZ, havePrevZ, vzEst, brakeLatched)
    }

    ghost predicate RingsValid()
      reads this, input, input.slots, output, output.slots
    {
      input.Valid() && output.Valid() && input != output && input.slots != output.slots
    }

    constructor (inRing: Spsc.SpscRing<Command>, outRing: Spsc.SpscRing<Command>, current: Mode, config: Config)
      requires config.Valid()
      ensures State() == New(config, current) && State().Inv()
      ensures input == inRing && output == outRing && droppedOut == 0
    {
      input, output, cfg := inRing, outRing, config;
      mode, authority, blend := current, AuthorityTarget(current), None;
      latency := Latency.New(0.2, config.maxLatencyNs);
      baseline, lastOut := Zeroed(Auto), Zeroed(current);
      pose, estopLatched, droppedOut := Pose(0.0, 0.0, 0.0), false, 0;
      veto, prevZ, havePrevZ, vzEst, brakeLatched := Veto(false, 0.0), 0.0, false, 0.0, false;
      new;
      NewOk(config, current);
    }

    method SetPose(p: Pose)
      requires State().Inv()
      modifies this`vzEst, this`prevZ, this`havePrevZ, this`pose
      ensures State() == Step(old(State()), Op.SetPose(p))
    {
      if havePrevZ {
        var dtS := cfg.TickS();
        if dtS > 0.0 { vzEst := (p.z - prevZ) / dtS; }
      }
      prevZ, havePrevZ, pose := p.z, true, p;
    }

    method RequestMode(m: Mode) returns (granted: bool)
      requires State().Inv()
      modifies this`mode, this`blend
      ensures granted == Allows(old(mode), m)
      ensures State() == Step(old(State()), Op.RequestMode(m))
    {
      if !Allows(mode, m) { return false; }
      mode := m;
      var to := AuthorityTarget(m);
      if Abs(to - authority) > 0.000_001 {
        blend := Some(Blend.New(authority, to, cfg.transitionS));
      }
      granted := true;
    }

    method EmergencyStop()
      requires State().Inv()
      modifies this`estopLatched, this`mode
      ensures State() == Step(old(State()), Stop)
    {
      estopLatched := true;
      mode := Mode.EmergencyStop;
    }

    method AdvanceBlend()
      requires State().Inv()
      modifies this`blend, this`authority
      ensures State() == old(State()).Advanced() && State().Inv()
    {
      AdvanceKeeps(State());
      if blend.Some? {
        var b := blend.value.Advanced(cfg.TickS());
        blend := Some(b);
        authority := b.Weight();
      }
    }

    /** Empties the input ring, keeping the newest command. */
    method Drain() returns (newest: Option<Command>, drained: nat)
      requires RingsValid()
      modifies input`head
      ensures RingsValid() && input.Contents() == [] && output.Contents() == old(output.Contents())
      ensures drained == |old(input.Contents())|
      ensures newest == if drained == 0 then None else Some(Newest(old(input.Contents())))
    {
      newest, drained := None, 0;
      ghost var queue := input.Contents();
      while true
        invariant RingsValid() && output.Contents() == old(output.Contents())
        invariant drained <= |queue| && input.Contents() == queue[drained..]
        invariant newest == if drained == 0 then None else Some(queue[drained - 1])
        decreases |queue| - drained
      {
        var c := input.Pop();
        if c.None? { break; }
        newest, drained := c, drained + 1;
      }
    }

    /** Steps 1 to 2b: latency compensation, authority mix, veto. */
    method Blended(nowNs: u64, cmd: Command, axes: array<real>)
      requires State().Inv() && axes.Length == 6 && axes[..] == cmd.axes
      modifies this`latency, this`blend, this`authority, axes
      ensures var r := old(State()).Advanced();
              && old(State()).Observed(nowNs, cmd).Valid()
              && State() == r.(latency := old(State()).Observed(nowNs, cmd))
              && axes[..] == r.veto.Applied(Mixed(r.authority, r.baseline.axes, latency.Compensated(cmd.axes)))
    {
      latency.ObservedBetween(SatSub(nowNs, cmd.timestampNs));
      latency := latency.Observed(SatSub(nowNs, cmd.timestampNs));
      Compensate(latency, axes);
      if blend.Some? {
        var b := blend.value.Advanced(cfg.TickS());
        blend := Some(b);
        authority := b.Weight();
      }
      Mix(authority, baseline.axes, axes);
      var _ := ApplyVeto(veto, axes);
    }

    /** Step 3: the geofence, and its stop. */
    method Fence(axes: array<real>)
      requires axes.Length == 6
      modifies this`estopLatched, this`mode, axes
      ensures var s := old(State());
              && axes[..] == (if cfg.fence.Evaluate(pose).Inside? then old(axes[..])
                              else cfg.fence.Fenced(pose, old(axes[..])))
              && State() == s.(mode := if s.Breach() && !s.estop then Mode.EmergencyStop else s.mode,
                               estop := s.estop || s.Breach())
    {
      var verdict := cfg.fence.Evaluate(pose);
      if !verdict.Inside? {
        ClampCommand(cfg.fence, pose, axes);
        if verdict.HardBreach? && !estopLatched {
          estopLatched := true;
          mode := Mode.EmergencyStop;
        }
      }
    }

    /** Steps 4 and 4b: the kinematic limits and the predictive brake over them. */
    method LimitAndBrake(axes: array<real>)
      requires cfg.limits.Valid() && axes.Length == 6
      modifies this`brakeLatched, axes
      ensures var s := old(State());
              var limited := cfg.limits.Applied(lastOut.axes, old(axes[..]));
              && axes[..] == limited[THROTTLE := s.Pinned(limited[THROTTLE])]
              && State() == s.(brake := s.BrakeNext())
    {
      ghost var s := State();
      var _ := ApplyLimits(cfg.limits, lastOut.axes, axes);
      ghost var limited := axes[..];
      var v := vzEst;
      var stopDist := v * v / (2.0 * BRAKE_A) + v * ESC_TAU_S;
      var reaches := pose.z + stopDist >= cfg.fence.maxAlt;
      assert reaches == s.ReachesCeiling();
      if reaches { brakeLatched := true; }
      if brakeLatched && v <= 0.5 && pose.z <= cfg.fence.maxAlt * CEILING_RELEASE_FRAC {
        brakeLatched := false;
      }
      if brakeLatched && axes[THROTTLE] > DESCEND_PIN_THROTTLE {
        axes[THROTTLE] := DESCEND_PIN_THROTTLE;
      }
      if reaches && axes[THROTTLE] > THROTTLE_NEUTRAL {
        axes[THROTTLE] := 0.30;
      }
      assert axes[..] == limited[THROTTLE := s.Pinned(limited[THROTTLE])];
    }

    /** Steps 1 to 3: what the command asks for after blend, veto and fence. */
    method Prepare(nowNs: u64, newest: Command, axes: array<real>)
      requires State().Inv() && axes.Length == 6 && axes[..] == newest.axes
      modifies this`latency, this`blend, this`authority, this`estopLatched, this`mode, axes
      ensures var r := old(State()).Advanced();
              && r.Ready() && r.Observed(nowNs, newest).Valid()
              && axes[..] == r.Target(nowNs, newest)
              && State() == r.(latency := r.Observed(nowNs, newest),
                               mode := if r.Breach() && !r.estop then Mode.EmergencyStop else r.mode,
                               estop := r.estop || r.Breach())
    {
      AdvanceKeeps(State());
      ProcessKeeps(State().Advanced(), nowNs, newest);
      Blended(nowNs, newest, axes);
      Fence(axes);
    }

    /** Steps 4 and 5 on `newest`, given what it asks for. */
    method Finish(ghost r: Loop, nowNs: u64, newest: Command, axes: array<real>) returns (cmd: Command)
      requires r.Inv() && r.Ready() && r.Observed(nowNs, newest).Valid()
      requires axes.Length == 6 && axes[..] == r.Target(nowNs, newest)
      requires State() == r.(latency := latency, mode := mode, estop := r.estop || r.Breach())
      modifies this`brakeLatched, this`lastOut, axes
      ensures cmd == lastOut == r.Out(nowNs, newest)
      ensures State() == old(State()).(brake := r.BrakeNext(), lastOut := lastOut)
    {
      ghost var fenced := State();
      cmd := newest.(mode := MixedMode(authority, baseline.mode, newest.mode));
      LimitAndBrake(axes);
      cmd := cmd.(axes := axes[..]);
      ShapedFrom(r, fenced, nowNs, newest, axes[..]);
      if estopLatched { cmd := EmergencyCommand(cmd.seqNo, nowNs); }
      lastOut := cmd;
    }

    /** Steps 1 to 5 of the pipeline on the newest command, for the tick that found it in the queue. */
    method Process(nowNs: u64, newest: Command, ghost s: Loop, ghost queue: seq<Command>) returns (cmd: Command)
      requires s.Inv() && queue != [] && newest == Newest(queue) && State() == s.Advanced()
      modifies this
      ensures State() == Step(s, Tick(nowNs, queue)) && cmd == lastOut
      ensures droppedOut == old(droppedOut)
    {
      AdvanceKeeps(s);
      cmd := Pipeline(nowNs, newest);
      TickIs(s, nowNs, queue);
    }

    method Pipeline(nowNs: u64, newest: Command) returns (cmd: Command)
      requires State().Inv()
      modifies this
      ensures var r := old(State()).Advanced();
              && r.Ready() && r.Observed(nowNs, newest).Valid()
              && State() == r.Processed(nowNs, newest) && cmd == lastOut
      ensures droppedOut == old(droppedOut)
    {
      AdvanceKeeps(State());
      ghost var r := State().Advanced();
      var axes := new real[6](i => if 0 <= i < 6 then newest.axes[i] else 0.0);
      assert axes[..] == newest.axes;
      Prepare(nowNs, newest, axes);
      cmd := Finish(r, nowNs, newest, axes);
    }

    /** One tick: the newest queued command goes through the pipeline and out; if the output ring is
        full it is counted as dropped. */
    method ProcessOne(nowNs: u64) returns (drained: nat)
      requires State().Inv() && RingsValid()
      modifies this, input`head, output`tail, output.slots
      ensures RingsValid()
      ensures State() == Step(old(State()), Tick(nowNs, old(input.Contents())))
      ensures input.Contents() == [] && drained == |old(input.Contents())|
      ensures var was := old(output.Contents());
              && output.Contents() == (if drained == 0 || |was| == output.slots.Length then was else was + [lastOut])
              && droppedOut == old(droppedOut) + if drained > 0 && |was| == output.slots.Length then 1 else 0
    {
      ghost var s, queue := State(), input.Contents();
      AdvanceBlend();
      var newest;
      newest, drained := Drain();
      if newest.None? { return; }
      var cmd := Process(nowNs, newest.value, s, queue);
      Publish(cmd);
    }

    /** Offers a command to the output ring; a full ring drops it. */
    method Publish(cmd: Command)
      requires RingsValid()
      modifies this`droppedOut, output`tail, output.slots
      ensures RingsValid() && input.Contents() == old(input.Contents())
      ensures var was := old(output.Contents());
              && output.Contents() == (if |was| == output.slots.Length then was else was + [cmd])
              && droppedOut == old(droppedOut) + if |was| == output.slots.Length then 1 else 0
    {
      var pushed := output.Push(cmd);
      if pushed.Err? { droppedOut := droppedOut + 1; }
    }
  }
}
