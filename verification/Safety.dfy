/** The stages of the safety pipeline over reals: latency compensation, authority blend, AI veto,
    geofence and kinematic limits. Each stage is a function on the six axes of a command, with the
    in-place loop of the source proved against it. Command fields other than the axes are words. */
module Safety {
  import opened Words

  type Axes = a: seq<real> | |a| == 6 witness [0.0, 0.0, 0.0, 0.0, 0.0, 0.0]

  const ROLL: int := 0
  const PITCH: int := 1
  const YAW: int := 2
  const THROTTLE: int := 3
  const LAT_X: int := 4
  const LAT_Y: int := 5

  datatype Mode = Auto | Assist | FullTeleop | EmergencyStop {
    function AsU8(): u8 {
      match this
      case Auto => 0
      case Assist => 1
      case FullTeleop => 2
      case EmergencyStop => 3
    }
  }

  datatype Command = Command(
    magic: u32, version: u16, reserved: u16, seqNo: u64, timestampNs: u64,
    mode: u8, flags: u8, axisCount: u8, pad0: u8, axes: Axes, crc: u32)

  const MAGIC_COMMAND: u32 := 0x434D_4401

  function ZeroAxes(): Axes { [0.0, 0.0, 0.0, 0.0, 0.0, 0.0] }

  function Zeroed(mode: Mode): Command {
    Command(MAGIC_COMMAND, 1, 0, 0, 0, mode.AsU8(), 0, 6, 0, ZeroAxes(), 0)
  }

  /** `write_emergency_stop`: the latched safe state. */
  function EmergencyCommand(seqNo: u64, timestampNs: u64): Command {
    Zeroed(EmergencyStop).(seqNo := seqNo, timestampNs := timestampNs, flags := 1)
  }

  function Abs(x: real): real { if x < 0.0 then -x else x }

  function RMin(a: real, b: real): real { if a < b then a else b }

  function RMax(a: real, b: real): real { if a < b then b else a }

  function Clamp(x: real, lo: real, hi: real): (r: real)
    requires lo <= hi
    ensures lo <= r <= hi && (lo <= x <= hi ==> r == x)
  {
    if x < lo then lo else if x > hi then hi else x
  }

  predicate Translational(k: int) { k == ROLL || k == PITCH || k == LAT_X || k == LAT_Y }

  /** The order in which loops visit the translational axes. */
  function TranslationalAxis(i: int): (k: int)
    requires 0 <= i < 4
    ensures Translational(k) && Rank(k) == i
  {
    [ROLL, PITCH, LAT_X, LAT_Y][i]
  }

  function Rank(k: int): int {
    if k == ROLL then 0 else if k == PITCH then 1 else if k == LAT_X then 2 else if k == LAT_Y then 3 else 4
  }

  /** `a` is no further from neutral than `b`, and on the same side. */
  predicate Shrunk(a: real, b: real) {
    (0.0 <= a <= b) || (b <= a <= 0.0)
  }

  predicate ShrunkAxes(a: Axes, b: Axes) {
    forall k :: 0 <= k < 6 ==> Shrunk(a[k], b[k])
  }

  lemma ScaledShrinks(x: real, k: real)
    requires 0.0 <= k <= 1.0
    ensures Shrunk(x * k, x)
  {
    if x >= 0.0 { assert x * k <= x * 1.0; } else { assert x * k >= x * 1.0; }
  }

  // ---- latency compensation ----

  datatype Latency = Latency(ewmaNs: real, alpha: real, maxNs: real, samples: nat) {
    predicate Valid() { ewmaNs >= 0.0 && 0.01 <= alpha <= 1.0 && maxNs >= 1.0 }

    static function New(alpha: real, maxNs: u64): (r: Latency)
      ensures r.Valid()
    {
      Latency(0.0, Clamp(alpha, 0.01, 1.0), Max(maxNs, 1) as real, 0)
    }

    function Observed(delay: nat): Latency {
      var d := delay as real;
      this.(ewmaNs := if samples == 0 then d else ewmaNs * (1.0 - alpha) + d * alpha, samples := samples + 1)
    }

    /** The estimate stays between the old one and the sample, so it is never negative. */
    lemma ObservedBetween(delay: nat)
      requires Valid()
      ensures Observed(delay).Valid()
      ensures samples > 0 ==>
                RMin(ewmaNs, delay as real) <= Observed(delay).ewmaNs <= RMax(ewmaNs, delay as real)
    {
      Between(ewmaNs, delay as real, alpha);
    }

    function Attenuation(): (k: real)
      requires Valid()
    {
      if ewmaNs <= 0.0 then 1.0 else 1.0 - RMin(ewmaNs / maxNs, 1.0) * 0.8
    }

    /** Full confidence without delay, the 0.2 floor from `maxNs` on. */
    lemma AttenuationRange()
      requires Valid()
      ensures 0.2 <= Attenuation() <= 1.0
      ensures ewmaNs >= maxNs ==> Attenuation() == 0.2
    {
      DivMono(0.0, ewmaNs, maxNs);
      if ewmaNs >= maxNs { DivMono(maxNs, ewmaNs, maxNs); }
    }

    function Compensated(a: Axes): Axes
      requires Valid()
    {
      var k := Attenuation();
      if k < 1.0 then seq(6, j requires 0 <= j < 6 => if Translational(j) then a[j] * k else a[j]) else a
    }

    lemma CompensatedShrinks(a: Axes, j: int)
      requires Valid() && 0 <= j < 6
      ensures Shrunk(Compensated(a)[j], a[j])
      ensures !Translational(j) ==> Compensated(a)[j] == a[j]
    {
      AttenuationRange();
      ScaledShrinks(a[j], Attenuation());
    }
  }

  /** A convex mix lies between its ends. */
  lemma Between(a: real, b: real, w: real)
    requires 0.0 <= w <= 1.0
    ensures RMin(a, b) <= a * (1.0 - w) + b * w <= RMax(a, b)
  {
    var m := a * (1.0 - w) + b * w;
    assert m - a == (b - a) * w && b - m == (b - a) * (1.0 - w);
    if a <= b {
      Product(b - a, w);
      Product(b - a, 1.0 - w);
    } else {
      Product(a - b, w);
      Product(a - b, 1.0 - w);
    }
  }

  method Compensate(lat: Latency, axes: array<real>)
    requires lat.Valid() && axes.Length == 6
    modifies axes
    ensures axes[..] == lat.Compensated(old(axes[..]))
  {
    var k := lat.Attenuation();
    if k < 1.0 {
      ghost var was := axes[..];
      ScaleTranslational(k, axes);
      assert forall j :: 0 <= j < 6 ==> axes[j] == lat.Compensated(was)[j];
    }
  }

  method ScaleTranslational(k: real, axes: array<real>)
    requires axes.Length == 6
    modifies axes
    ensures forall j :: 0 <= j < 6 ==> axes[j] == if Translational(j) then old(axes[j]) * k else old(axes[j])
  {
    ghost var was := axes[..];
    for i := 0 to 4
      invariant forall j :: 0 <= j < 6 ==> axes[j] == if Rank(j) < i then was[j] * k else was[j]
    {
      var ax := TranslationalAxis(i);
      axes[ax] := axes[ax] * k;
    }
  }

  // ---- authority blend ----

  function Quintic(x: real): real { x * x * x * (x * (x * 6.0 - 15.0) + 10.0) }

  function Smootherstep(x: real): real { Quintic(Clamp(x, 0.0, 1.0)) }

  /** The growth of the quintic over an interval of centre `c` and half-width `d`, as squares. */
  lemma QuinticGrowth(c: real, d: real)
    ensures Quintic(c + d) - Quintic(c - d)
            == 60.0 * d * ((c * (1.0 - c) - d * d / 3.0) * (c * (1.0 - c) - d * d / 3.0)
                           + (1.0 - 2.0 * c) * (1.0 - 2.0 * c) * d * d / 3.0 + 4.0 * (d * d * d * d) / 45.0)
  {
  }

  lemma GrowthPositive(p: real, l: real, d: real)
    requires d >= 0.0
    ensures 60.0 * d * (p * p + l * l * d * d / 3.0 + 4.0 * (d * d * d * d) / 45.0) >= 0.0
  {
    assert p * p >= 0.0;
    var ld := l * d;
    assert l * l * d * d == ld * ld >= 0.0;
    var dd := d * d;
    assert d * d * d * d == dd * dd >= 0.0;
    var s := p * p + l * l * d * d / 3.0 + 4.0 * (d * d * d * d) / 45.0;
    assert s >= 0.0;
    Product(d, s);
    assert 60.0 * d * s == 60.0 * (d * s);
  }

  lemma Product(a: real, b: real)
    requires a >= 0.0 && b >= 0.0
    ensures a * b >= 0.0
  {
  }

  lemma QuinticRises(x: real, y: real)
    requires x <= y
    ensures Quintic(x) <= Quintic(y)
  {
    var c, d := (x + y) / 2.0, (y - x) / 2.0;
    QuinticGrowth(c, d);
    GrowthPositive(c * (1.0 - c) - d * d / 3.0, 1.0 - 2.0 * c, d);
    assert c + d == y && c - d == x;
  }

  /** What the quintic is short of 1, as a product. */
  lemma QuinticGap(x: real)
    ensures 1.0 - Quintic(x) == (1.0 - x) * (1.0 - x) * (1.0 - x) * (1.0 + 3.0 * x + 6.0 * (x * x))
  {
  }

  lemma CubeTimes(y: real, f: real) returns (g: real)
    requires y > 0.0 && f > 0.0
    ensures g == y * y * y * f && g > 0.0
  {
    var square := Positive(y, y);
    var cube := Positive(square, y);
    g := Positive(cube, f);
  }

  lemma QuinticBelow(x: real)
    requires 0.0 <= x < 1.0
    ensures Quintic(x) < 1.0
  {
    Product(x, x);
    var gap := CubeTimes(1.0 - x, 1.0 + 3.0 * x + 6.0 * (x * x));
    QuinticGap(x);
  }

  /** The smootherstep never falls ... */
  lemma SmootherstepMonotone(x: real, y: real)
    requires x <= y
    ensures Smootherstep(x) <= Smootherstep(y)
  {
    QuinticRises(Clamp(x, 0.0, 1.0), Clamp(y, 0.0, 1.0));
  }

  /** ... from 0 to 1. */
  lemma SmootherstepRange(x: real)
    ensures 0.0 <= Smootherstep(x) <= 1.0
    ensures x <= 0.0 ==> Smootherstep(x) == 0.0
    ensures x >= 1.0 ==> Smootherstep(x) == 1.0
  {
    QuinticEnds();
    QuinticRises(0.0, Clamp(x, 0.0, 1.0));
    QuinticRises(Clamp(x, 0.0, 1.0), 1.0);
  }

  lemma QuinticEnds()
    ensures Quintic(0.0) == 0.0 && Quintic(1.0) == 1.0
  {
  }

  /** A curve that rises from 0 to 1. */
  ghost predicate Eases(ease: real -> real) {
    forall x: real, y: real {:trigger EasesAt(ease, x, y)} :: EasesAt(ease, x, y)
  }

  ghost predicate EasesAt(ease: real -> real, x: real, y: real) {
    && 0.0 <= ease(x) <= 1.0
    && (x >= 1.0 ==> ease(x) == 1.0)
    && (x <= y ==> ease(x) <= ease(y))
  }

  lemma SmootherstepEases()
    ensures Eases(Smootherstep)
  {
    forall x: real, y: real
      ensures EasesAt(Smootherstep, x, y)
    {
      SmootherstepRange(x);
      if x <= y { SmootherstepMonotone(x, y); }
    }
  }

  lemma EasedRange(from: real, to: real, s: real)
    requires 0.0 <= s <= 1.0
    ensures RMin(from, to) <= from + (to - from) * s <= RMax(from, to)
  {
    Between(from, to, s);
    assert from + (to - from) * s == from * (1.0 - s) + to * s;
  }

  lemma EasedMoves(from: real, to: real, s: real, t: real, v: real, w: real)
    requires 0.0 <= t <= 1.0 && s <= t
    requires v == from + (to - from) * s && w == from + (to - from) * t
    ensures from <= to ==> v <= w <= to
    ensures from >= to ==> to <= w <= v
  {
    EasedRange(from, to, t);
    Scale(to - from, s, t);
  }

  function AuthorityTarget(mode: Mode): real {
    match mode
    case Auto => 0.0
    case Assist => 0.5
    case FullTeleop => 1.0
    case EmergencyStop => 0.0
  }

  datatype Blend = Blend(from: real, to: real, durationS: real, elapsedS: real) {
    predicate Valid() {
      0.0 <= from <= 1.0 && 0.0 <= to <= 1.0 && durationS >= 0.001 && 0.0 <= elapsedS <= durationS
    }

    static function New(from: real, to: real, durationS: real): Blend {
      Blend(from, to, RMax(durationS, 0.001), 0.0)
    }

    function Weight(): real
      requires durationS > 0.0
    {
      WeightBy(Smootherstep)
    }

    /** The weight with any easing curve. */
    function WeightBy(ease: real -> real): real
      requires durationS > 0.0
    {
      from + (to - from) * ease(elapsedS / durationS)
    }

    function Advanced(dtS: real): Blend { this.(elapsedS := RMin(elapsedS + dtS, durationS)) }

    predicate Done() { elapsedS >= durationS }

    lemma WeightRange()
      requires Valid()
      ensures RMin(from, to) <= Weight() <= RMax(from, to)
      ensures Done() ==> Weight() == to
    {
      SmootherstepEases();
      WeightByRange(Smootherstep);
    }

    lemma WeightByRange(ease: real -> real)
      requires Valid() && Eases(ease)
      ensures RMin(from, to) <= WeightBy(ease) <= RMax(from, to)
      ensures Done() ==> WeightBy(ease) == to
    {
      var x := elapsedS / durationS;
      assert EasesAt(ease, x, x);
      EasedRange(from, to, ease(x));
      if Done() { assert x == 1.0; }
    }

    lemma StartsAtFrom()
      requires Valid() && elapsedS == 0.0
      ensures Weight() == from
    {
      SmootherstepRange(0.0);
    }

    /** Time moves the weight monotonically toward the target. */
    lemma AdvanceMoves(dtS: real)
      requires Valid() && dtS >= 0.0
      ensures Advanced(dtS).Valid()
      ensures Toward(Weight(), Advanced(dtS).Weight())
    {
      SmootherstepEases();
      AdvanceMovesBy(Smootherstep, dtS);
    }

    lemma AdvanceMovesBy(ease: real -> real, dtS: real)
      requires Valid() && dtS >= 0.0 && Eases(ease)
      ensures Advanced(dtS).Valid()
      ensures Toward(WeightBy(ease), Advanced(dtS).WeightBy(ease))
    {
      var later := RMin(elapsedS + dtS, durationS);
      var x, y := elapsedS / durationS, later / durationS;
      DivMono(elapsedS, later, durationS);
      assert EasesAt(ease, x, y) && EasesAt(ease, y, y);
      var next := Advanced(dtS);
      assert next == Blend(from, to, durationS, later);
      assert next.WeightBy(ease) == from + (to - from) * ease(y);
      EasedMoves(from, to, ease(x), ease(y), WeightBy(ease), next.WeightBy(ease));
    }

    /** `w` is no further from the target than `v`, and on the same side. */
    predicate Toward(v: real, w: real) {
      if from <= to then v <= w <= to else to <= w <= v
    }

    /** `n` advances in a row. */
    function AdvancedBy(n: nat, dtS: real): (b: Blend)
      ensures b.from == from && b.to == to && b.durationS == durationS
      decreases n
    {
      if n == 0 then this else AdvancedBy(n - 1, dtS).Advanced(dtS)
    }

    lemma {:induction false} AdvancedByTime(n: nat, dtS: real)
      requires Valid() && dtS >= 0.0
      ensures AdvancedBy(n, dtS) == this.(elapsedS := RMin(elapsedS + n as real * dtS, durationS))
      decreases n
    {
      if n == 0 {
        assert RMin(elapsedS, durationS) == elapsedS;
      } else {
        AdvancedByTime(n - 1, dtS);
        assert n as real * dtS == (n - 1) as real * dtS + dtS;
      }
    }

    /** Short of its duration a blend that has somewhere to go is not there yet. */
    lemma NotThereYet()
      requires Valid() && !Done() && from != to
      ensures Weight() != to
    {
      var x := elapsedS / durationS;
      DivStrict(elapsedS, durationS);
      QuinticBelow(x);
      ShortOf(from, to, Smootherstep(x), Weight());
    }

    /** The weight is the target, exactly, once the advances cover the time left, and not before. */
    lemma ReachesTarget(n: nat, dtS: real)
      requires Valid() && dtS >= 0.0
      ensures var b := AdvancedBy(n, dtS);
              && (b.Done() <==> n as real * dtS >= durationS - elapsedS)
              && (b.Weight() == to <==> from == to || n as real * dtS >= durationS - elapsedS)
    {
      Product(n as real, dtS);
      AdvancedByTime(n, dtS);
      var b := AdvancedBy(n, dtS);
      b.WeightRange();
      if !b.Done() && from != to { b.NotThereYet(); }
    }
  }

  lemma DivMono(a: real, b: real, d: real)
    requires a <= b && d > 0.0
    ensures a / d <= b / d
  {
  }

  lemma DivStrict(a: real, d: real)
    requires 0.0 <= a < d
    ensures 0.0 <= a / d < 1.0
  {
    DivMono(0.0, a, d);
    QuotientBelow(a / d, a, d);
  }

  lemma QuotientBelow(q: real, a: real, d: real)
    requires 0.0 <= a < d && q == a / d
    ensures q < 1.0
  {
    assert q * d == a;
    if q >= 1.0 { Scale(d, 1.0, q); }
  }

  lemma Positive(a: real, b: real) returns (c: real)
    requires a > 0.0 && b > 0.0
    ensures c == a * b && c > 0.0
  {
    c := a * b;
  }

  lemma ShortOf(from: real, to: real, s: real, w: real)
    requires from != to && s < 1.0 && w == from + (to - from) * s
    ensures w != to
  {
    if to > from {
      var left := Positive(to - from, 1.0 - s);
      assert to - w == left;
    } else {
      var left := Positive(from - to, 1.0 - s);
      assert w - to == left;
    }
  }

  lemma Scale(k: real, s: real, t: real)
    requires s <= t
    ensures k >= 0.0 ==> k * s <= k * t
    ensures k <= 0.0 ==> k * t <= k * s
  {
    if k >= 0.0 { Product(k, t - s); } else { Product(-k, t - s); }
  }

  /** Operator and autonomy axes mixed by authority `w`; from 0.9999 on the operator's alone. */
  function Mixed(w: real, base: Axes, a: Axes): Axes {
    if w < 0.9999 then seq(6, k requires 0 <= k < 6 => base[k] * (1.0 - w) + a[k] * w) else a
  }

  function MixedMode(w: real, baseMode: u8, mode: u8): u8 {
    if w < 0.9999 && !(w >= 0.5) then baseMode else mode
  }

  lemma MixedBetween(w: real, base: Axes, a: Axes, k: int)
    requires 0.0 <= w <= 1.0 && 0 <= k < 6
    ensures RMin(base[k], a[k]) <= Mixed(w, base, a)[k] <= RMax(base[k], a[k])
  {
    Between(base[k], a[k], w);
  }

  method Mix(w: real, base: Axes, axes: array<real>)
    requires axes.Length == 6
    modifies axes
    ensures axes[..] == Mixed(w, base, old(axes[..]))
  {
    if w < 0.9999 {
      ghost var was := axes[..];
      for k := 0 to 6
        invariant forall j :: 0 <= j < k ==> axes[j] == base[j] * (1.0 - w) + was[j] * w
        invariant forall j :: k <= j < 6 ==> axes[j] == was[j]
      {
        axes[k] := base[k] * (1.0 - w) + axes[k] * w;
      }
      forall j | 0 <= j < 6
        ensures axes[..][j] == Mixed(w, base, was)[j]
      {
      }
    }
  }

  // ---- the AI veto ----

  datatype Veto = Veto(active: bool, cap: real) {
    predicate Valid() { active ==> 0.01 <= cap <= 1.0 }

    function Engaged(maxTranslational: real): Veto { Veto(true, Clamp(maxTranslational, 0.01, 1.0)) }

    function Disengaged(): Veto { this.(active := false) }

    function Cap(): (c: real)
      ensures c >= 0.01
    {
      RMax(cap, 0.01)
    }

    function Applied(a: Axes): Axes {
      if !active then a
      else seq(6, j requires 0 <= j < 6 => if Translational(j) then Clamp(a[j], -Cap(), Cap()) else a[j])
    }

    /** The veto only restricts: no axis is pushed away from neutral or past it. */
    lemma AppliedShrinks(a: Axes)
      ensures ShrunkAxes(Applied(a), a)
      ensures active ==> forall k :: 0 <= k < 6 && Translational(k) ==> Abs(Applied(a)[k]) <= Cap()
    {
    }
  }


  method ApplyVeto(veto: Veto, axes: array<real>) returns (touched: bool)
    requires axes.Length == 6
    modifies axes
    ensures axes[..] == veto.Applied(old(axes[..]))
    ensures touched <==> axes[..] != old(axes[..])
  {
    ghost var was := axes[..];
    if !veto.active {
      return false;
    }
    var cap := veto.Cap();
    touched := false;
    for i := 0 to 4
      invariant forall j :: 0 <= j < 6 ==> axes[j] == if Rank(j) < i then Clamp(was[j], -cap, cap) else was[j]
      invariant touched <==> exists j :: 0 <= j < 6 && axes[j] != was[j]
    {
      var ax := TranslationalAxis(i);
      var before := axes[ax];
      var after := Clamp(before, -cap, cap);
      if after != before {
        axes[ax] := after;
        touched := true;
        assert axes[ax] != was[ax];
      }
    }
    assert axes[..] == veto.Applied(was);
  }

  // ---- the geofence ----

  const THROTTLE_NEUTRAL: real := 0.5

  datatype Pose = Pose(x: real, y: real, z: real)

  datatype Verdict = Inside | SoftWarn | HardBreach

  /** `hypot` of the standard library. */
  ghost predicate IsHypot(hypot: (real, real) -> real) {
    forall dx: real, dy: real {:trigger hypot(dx, dy)} ::
      hypot(dx, dy) >= 0.0 && hypot(dx, dy) * hypot(dx, dy) == dx * dx + dy * dy
  }

  datatype Fence = Fence(centerEast: real, centerNorth: real, radius: real, minAlt: real, maxAlt: real,
                         hypot: (real, real) -> real)
  {
    function Dist(pose: Pose): real { hypot(pose.x - centerEast, pose.y - centerNorth) }

    function Evaluate(pose: Pose): Verdict {
      if Dist(pose) > radius || pose.z > maxAlt || pose.z < minAlt then HardBreach
      else if Dist(pose) > radius * 0.95 || pose.z > maxAlt * 0.95 then SoftWarn
      else Inside
    }

    /** How much of the outward motion is removed. */
    function Severity(pose: Pose): (s: real)
      requires Dist(pose) > 0.0
      ensures 0.0 <= s <= 1.0
      ensures Evaluate(pose).HardBreach? ==> s == 1.0
    {
      if Evaluate(pose).HardBreach? then 1.0
      else Clamp((Dist(pose) - radius * 0.95) / (radius * 0.05), 0.0, 1.0)
    }

    /** One axis with direction cosine `u`: its outward part is reduced. */
    static function Deflect(a: real, u: real, severity: real): real {
      if a * u > 0.0 then a - a * u * severity * u else a
    }

    function Horizontal(pose: Pose, a: Axes): Axes {
      if Dist(pose) > 0.000_000_001 && Severity(pose) > 0.0 then
        var ux := (pose.x - centerEast) / Dist(pose);
        var uy := (pose.y - centerNorth) / Dist(pose);
        seq(6, k requires 0 <= k < 6 =>
          if k == LAT_X || k == ROLL then Deflect(a[k], ux, Severity(pose))
          else if k == LAT_Y || k == PITCH then Deflect(a[k], uy, Severity(pose))
          else a[k])
      else a
    }

    function Vertical(pose: Pose, t: real): real {
      var t := if pose.z >= maxAlt * 0.95 && t > THROTTLE_NEUTRAL then THROTTLE_NEUTRAL else t;
      if pose.z <= minAlt && t < THROTTLE_NEUTRAL then THROTTLE_NEUTRAL else t
    }

    function Fenced(pose: Pose, a: Axes): Axes {
      var h := Horizontal(pose, a);
      h[THROTTLE := Vertical(pose, h[THROTTLE])]
    }

    /** A breach removes the outward part of an axis along the breach direction; nothing is reversed. */
    static lemma DeflectShrinks(a: real, u: real, severity: real)
      requires 0.0 <= severity <= 1.0 && u * u <= 1.0
      ensures Shrunk(Deflect(a, u, severity), a)
    {
      var k := severity * (u * u);
      Product(severity, u * u);
      Product(severity, 1.0 - u * u);
      assert 0.0 <= k <= 1.0;
      assert a - a * u * severity * u == a * (1.0 - k);
      ScaledShrinks(a, 1.0 - k);
    }

    /** Whether the command that leaves the fence at a hard breach moves outward: on each axis of a pair,
        and along the displacement. With `x` and `y` the outward parts asked for, `p` and `q` those left,
        and `xx` and `yy` the squares of the displacement: the part left on an axis is gone exactly if the
        breach lies along that axis, and the motion left is not outward exactly if at most one axis asked to
        go out and what the other takes back makes up for the part left on it. */
    lemma BreachOutward(pose: Pose, a: Axes, i: int, j: int, dx: real, dy: real,
                        x: real, y: real, xx: real, yy: real, p: real, q: real)
      requires IsHypot(hypot) && Evaluate(pose).HardBreach? && Dist(pose) > 0.000_000_001
      requires (i == LAT_X && j == LAT_Y) || (i == ROLL && j == PITCH)
      requires dx == pose.x - centerEast && dy == pose.y - centerNorth && xx == dx * dx && yy == dy * dy
      requires x == a[i] * dx && p == Fenced(pose, a)[i] * dx
      requires y == a[j] * dy && q == Fenced(pose, a)[j] * dy
      ensures (p > 0.0 <==> x > 0.0 && yy > 0.0) && (q > 0.0 <==> y > 0.0 && xx > 0.0)
      ensures p + q <= 0.0 <==>
                && (x <= 0.0 || y <= 0.0)
                && (x > 0.0 ==> x * yy + y * (xx + yy) <= 0.0)
                && (y > 0.0 ==> y * xx + x * (xx + yy) <= 0.0)
    {
      BreachDeflects(pose, a, i, j, dx, dy, Dist(pose), Fenced(pose, a));
      PairOutward(Dist(pose), a[i], a[j], Fenced(pose, a)[i], Fenced(pose, a)[j], dx, dy, x, y, xx, yy, p, q);
    }

    static lemma PairOutward(d: real, a: real, b: real, r: real, s: real, dx: real, dy: real,
                             x: real, y: real, xx: real, yy: real, p: real, q: real)
      requires d > 0.0 && d * d == xx + yy && xx == dx * dx && yy == dy * dy
      requires r == Deflect(a, dx / d, 1.0) && s == Deflect(b, dy / d, 1.0)
      requires x == a * dx && p == r * dx && y == b * dy && q == s * dy
      ensures (p > 0.0 <==> x > 0.0 && yy > 0.0) && (q > 0.0 <==> y > 0.0 && xx > 0.0)
      ensures p + q <= 0.0 <==>
                && (x <= 0.0 || y <= 0.0)
                && (x > 0.0 ==> x * yy + y * (xx + yy) <= 0.0)
                && (y > 0.0 ==> y * xx + x * (xx + yy) <= 0.0)
    {
      var d2 := Positive(d, d);
      LeftOnAxis(a, dx, d, r, x, xx, yy, p);
      LeftOnAxis(b, dy, d, s, y, yy, xx, q);
      NoneFromNone(a, dx, x, xx);
      NoneFromNone(b, dy, y, yy);
      Outward(x, y, xx, yy, p, q);
    }

    lemma BreachDeflects(pose: Pose, a: Axes, i: int, j: int, dx: real, dy: real, d: real, r: Axes)
      requires IsHypot(hypot) && Evaluate(pose).HardBreach? && d == Dist(pose) > 0.000_000_001
      requires (i == LAT_X && j == LAT_Y) || (i == ROLL && j == PITCH)
      requires dx == pose.x - centerEast && dy == pose.y - centerNorth && r == Fenced(pose, a)
      ensures d * d == dx * dx + dy * dy
      ensures r[i] == Deflect(a[i], dx / d, 1.0) && r[j] == Deflect(a[j], dy / d, 1.0)
    {
      assert Severity(pose) == 1.0;
    }

    /** The outward part left on one axis, times the squared distance. */
    static lemma LeftOnAxis(a: real, dx: real, d: real, r: real, x: real, xx: real, yy: real, p: real)
      requires d > 0.0 && d * d == xx + yy && xx == dx * dx && r == Deflect(a, dx / d, 1.0)
      requires x == a * dx && p == r * dx
      ensures p * (xx + yy) == x * if x > 0.0 then yy else xx + yy
    {
      var u := dx / d;
      assert u * d == dx;
      SameSign(a, u, dx, d);
      if x > 0.0 {
        assert p == x - (a * u) * (u * dx);
        assert (a * u) * (u * dx) * (d * d) == (a * (u * d)) * ((u * d) * dx);
        assert p * (d * d) == x * (d * d) - x * xx;
      }
    }

    /** With displacement (3, 4) and both lateral axes at 1 a hard breach leaves outward motion. */
    lemma BreachStillOutward(pose: Pose, a: Axes)
      requires IsHypot(hypot) && radius == 1.0
      requires pose.x - centerEast == 3.0 && pose.y - centerNorth == 4.0 && a[LAT_X] == 1.0 == a[LAT_Y]
      ensures Evaluate(pose).HardBreach? && Dist(pose) == 5.0
      ensures var r := Fenced(pose, a); r[LAT_X] == 0.64 && r[LAT_Y] == 0.36 && r[LAT_X] * 3.0 + r[LAT_Y] * 4.0 > 0.0
    {
      FiveIs(hypot(3.0, 4.0));
      assert Dist(pose) == hypot(3.0, 4.0);
      assert Severity(pose) == 1.0;
    }

    lemma FencedShrinks(pose: Pose, a: Axes, k: int)
      requires IsHypot(hypot) && 0 <= k < 6 && k != THROTTLE
      ensures Shrunk(Fenced(pose, a)[k], a[k])
    {
      var d := Dist(pose);
      if d > 0.000_000_001 && Severity(pose) > 0.0 {
        var dx, dy := pose.x - centerEast, pose.y - centerNorth;
        UnitCosine(dx, dy, d);
        UnitCosine(dy, dx, d);
        DeflectShrinks(a[k], dx / d, Severity(pose));
        DeflectShrinks(a[k], dy / d, Severity(pose));
      }
    }

    /** Past the soft ceiling the throttle is at most neutral, unless the floor is there too. */
    lemma FencedThrottle(pose: Pose, a: Axes)
      ensures pose.z >= maxAlt * 0.95 ==> Fenced(pose, a)[THROTTLE] <= RMax(0.5, RMin(a[THROTTLE], 0.5))
      ensures pose.z <= minAlt ==> Fenced(pose, a)[THROTTLE] >= 0.5
    {
    }
  }

  lemma FiveIs(d: real)
    requires d >= 0.0 && d * d == 25.0
    ensures d == 5.0
  {
    if d > 5.0 { var c := Positive(d - 5.0, d + 5.0); }
    if d < 5.0 { var c := Positive(5.0 - d, 5.0 + d); }
  }

  lemma SameSign(a: real, u: real, x: real, d: real)
    requires d > 0.0 && u * d == x
    ensures a * u > 0.0 <==> a * x > 0.0
  {
    assert a * x == (a * u) * d;
    if a * u > 0.0 { var c := Positive(a * u, d); }
    if a * u <= 0.0 { Product(-(a * u), d); }
  }

  lemma NoneFromNone(a: real, dx: real, x: real, xx: real)
    requires x == a * dx && xx == dx * dx
    ensures xx >= 0.0 && (x != 0.0 ==> xx > 0.0)
  {
    var s := SquareOf(dx);
    if dx == 0.0 { assert a * 0.0 == 0.0; }
  }

  /** The signs of the parts `p` and `q` left of `x` and `y`, from their products with the squared distance. */
  lemma Outward(x: real, y: real, xx: real, yy: real, p: real, q: real)
    requires xx >= 0.0 && yy >= 0.0 && xx + yy > 0.0
    requires (x != 0.0 ==> xx > 0.0) && (y != 0.0 ==> yy > 0.0)
    requires p * (xx + yy) == x * if x > 0.0 then yy else xx + yy
    requires q * (xx + yy) == y * if y > 0.0 then xx else xx + yy
    ensures (p > 0.0 <==> x > 0.0 && yy > 0.0) && (q > 0.0 <==> y > 0.0 && xx > 0.0)
    ensures p + q <= 0.0 <==>
              && (x <= 0.0 || y <= 0.0)
              && (x > 0.0 ==> x * yy + y * (xx + yy) <= 0.0)
              && (y > 0.0 ==> y * xx + x * (xx + yy) <= 0.0)
  {
    var d2 := xx + yy;
    SignOf(p, d2, p * d2);
    SignOf(q, d2, q * d2);
    SignOf(p + q, d2, p * d2 + q * d2);
    TimesSign(x, yy, x * yy);
    TimesSign(x, d2, x * d2);
    TimesSign(y, xx, y * xx);
    TimesSign(y, d2, y * d2);
  }

  lemma SquareOf(x: real) returns (s: real)
    ensures s == x * x && s >= 0.0 && (s > 0.0 <==> x != 0.0)
  {
    s := x * x;
    if x > 0.0 { var c := Positive(x, x); }
    if x < 0.0 { var c := Positive(-x, -x); }
  }

  lemma SignOf(p: real, d: real, m: real)
    requires d > 0.0 && m == p * d
    ensures (p > 0.0 <==> m > 0.0) && (p <= 0.0 <==> m <= 0.0)
  {
    if p > 0.0 { var c := Positive(p, d); } else { Product(-p, d); }
  }

  lemma TimesSign(x: real, t: real, m: real)
    requires t >= 0.0 && m == x * t
    ensures x > 0.0 && t > 0.0 ==> m > 0.0
    ensures x <= 0.0 || t == 0.0 ==> m <= 0.0
    ensures x >= 0.0 ==> m >= 0.0
  {
    if x > 0.0 && t > 0.0 { var c := Positive(x, t); }
    if x <= 0.0 { Product(-x, t); }
    if x >= 0.0 { Product(x, t); }
  }

  lemma UnitCosine(dx: real, dy: real, d: real)
    requires d > 0.0 && d * d == dx * dx + dy * dy
    ensures (dx / d) * (dx / d) <= 1.0
  {
    NonNegativeSquare(dy);
    UnitRatio(dx / d, d, dx);
  }

  lemma NonNegativeSquare(y: real)
    ensures y * y >= 0.0
  {
  }

  lemma UnitRatio(u: real, d: real, x: real)
    requires d > 0.0 && x == u * d && x * x <= d * d
    ensures u * u <= 1.0
  {
    if x > d { LargerSquare(x, d); }
    if x < -d { LargerSquare(-x, d); }
    DivMono(x, d, d);
    DivMono(-d, x, d);
    Cancel(u, d, x);
    Cancel(1.0, d, d);
    Cancel(-1.0, d, -d);
    Product(1.0 - u, 1.0 + u);
    assert (1.0 - u) * (1.0 + u) == 1.0 - u * u;
  }

  lemma Cancel(u: real, d: real, x: real)
    requires d > 0.0 && x == u * d
    ensures x / d == u
  {
  }

  lemma LargerSquare(a: real, b: real)
    requires a > b > 0.0
    ensures a * a > b * b
  {
    assert (a - b) * (a + b) > 0.0;
  }

  method ClampCommand(fence: Fence, pose: Pose, axes: array<real>)
    requires axes.Length == 6
    modifies axes
    ensures axes[..] == fence.Fenced(pose, old(axes[..]))
  {
    ghost var was := axes[..];
    var dx, dy := pose.x - fence.centerEast, pose.y - fence.centerNorth;
    var dist := fence.hypot(dx, dy);
    if dist > 0.000_000_001 {
      var ux, uy := dx / dist, dy / dist;
      var severity := fence.Severity(pose);
      if severity > 0.0 {
        axes[LAT_X] := Fence.Deflect(axes[LAT_X], ux, severity);
        axes[LAT_Y] := Fence.Deflect(axes[LAT_Y], uy, severity);
        axes[ROLL] := Fence.Deflect(axes[ROLL], ux, severity);
        axes[PITCH] := Fence.Deflect(axes[PITCH], uy, severity);
      }
    }
    forall k | 0 <= k < 6
      ensures axes[k] == fence.Horizontal(pose, was)[k]
    {
    }
    ghost var flat := axes[..];
    assert flat == fence.Horizontal(pose, was);
    if pose.z >= fence.maxAlt * 0.95 && axes[THROTTLE] > THROTTLE_NEUTRAL {
      axes[THROTTLE] := THROTTLE_NEUTRAL;
    }
    if pose.z <= fence.minAlt && axes[THROTTLE] < THROTTLE_NEUTRAL {
      axes[THROTTLE] := THROTTLE_NEUTRAL;
    }
    assert axes[..] == flat[THROTTLE := fence.Vertical(pose, flat[THROTTLE])];
  }

  // ---- kinematic limits ----

  datatype Limits = Limits(maxTilt: real, maxYaw: real, maxLateral: real, maxAxisStep: real, maxThrottleStep: real) {

    /** What `clamp` demands of its bounds. */
    predicate Valid() {
      maxTilt >= 0.0 && maxYaw >= 0.0 && maxLateral >= 0.0 && maxAxisStep >= 0.0 && maxThrottleStep >= 0.0
    }

    function High(k: int): real {
      if k == ROLL || k == PITCH then maxTilt else if k == YAW then maxYaw
      else if k == THROTTLE then 1.0 else maxLateral
    }

    function Low(k: int): real { if k == THROTTLE then 0.0 else -High(k) }

    function Step(k: int): real { if k == THROTTLE then maxThrottleStep else maxAxisStep }

    predicate Within(a: Axes) {
      forall k :: 0 <= k < 6 ==> Low(k) <= a[k] <= High(k)
    }

    function ClampedAxis(a: real, k: int): real
      requires Valid()
    {
      Clamp(a, Low(k), High(k))
    }

    function SlewedAxis(prev: real, target: real, k: int): real
      requires Valid()
    {
      prev + Clamp(target - prev, -Step(k), Step(k))
    }

    /** Absolute clamp, then slew from the last accepted command. */
    function Applied(prev: Axes, a: Axes): Axes
      requires Valid()
    {
      seq(6, k requires 0 <= k < 6 => SlewedAxis(prev[k], ClampedAxis(a[k], k), k))
    }

    /** Whatever is asked for, the result is within the envelope, one step from the last command at
        most, and on the way to the clamped target. */
    lemma AppliedEnvelope(prev: Axes, a: Axes, k: int)
      requires Valid() && Within(prev) && 0 <= k < 6
      ensures var r, t := Applied(prev, a)[k], ClampedAxis(a[k], k);
              && Low(k) <= r <= High(k)
              && Abs(r - prev[k]) <= Step(k)
              && RMin(prev[k], t) <= r <= RMax(prev[k], t)
              && (r == t <==> Abs(t - prev[k]) <= Step(k))
    {
    }
  }

  method ClampAbs(axes: array<real>, ax: int, limit: real) returns (changed: bool)
    requires axes.Length == 6 && 0 <= ax < 6 && limit >= 0.0
    modifies axes
    ensures axes[..] == old(axes[..])[ax := Clamp(old(axes[ax]), -limit, limit)]
    ensures changed <==> axes[ax] != old(axes[ax])
  {
    var before := axes[ax];
    axes[ax] := Clamp(before, -limit, limit);
    changed := before != axes[ax];
  }

  method Slew(prev: Axes, axes: array<real>, ax: int, maxStep: real) returns (changed: bool)
    requires axes.Length == 6 && 0 <= ax < 6 && maxStep >= 0.0
    modifies axes
    ensures axes[..] == old(axes[..])[ax := prev[ax] + Clamp(old(axes[ax]) - prev[ax], -maxStep, maxStep)]
    ensures changed <==> axes[ax] != old(axes[ax])
  {
    var target := axes[ax];
    var last := prev[ax];
    var delta := Clamp(target - last, -maxStep, maxStep);
    var limited := last + delta;
    changed := limited != target;
    axes[ax] := limited;
  }

  /** `KinematicLimits::apply`. The result tells whether anything but the throttle clamp had effect. */
  method ApplyLimits(lim: Limits, prev: Axes, axes: array<real>) returns (touched: bool)
    requires lim.Valid() && axes.Length == 6
    modifies axes
    ensures axes[..] == lim.Applied(prev, old(axes[..]))
    ensures !touched ==> forall k :: 0 <= k < 6 && k != THROTTLE ==> axes[k] == old(axes[k])
  {
    ghost var was := axes[..];
    touched := ClampAll(lim, axes);
    ghost var clamped := axes[..];
    var changed := SlewAll(lim, prev, axes);
    touched := touched || changed;
    assert forall k :: 0 <= k < 6 ==> clamped[k] == lim.ClampedAxis(was[k], k);
    assert forall k :: 0 <= k < 6 ==> axes[..][k] == lim.Applied(prev, was)[k];
  }

  /** The slews of `apply`, the throttle's last. */
  method SlewAll(lim: Limits, prev: Axes, axes: array<real>) returns (touched: bool)
    requires lim.Valid() && axes.Length == 6
    modifies axes
    ensures forall k :: 0 <= k < 6 ==> axes[k] == lim.SlewedAxis(prev[k], old(axes[k]), k)
    ensures !touched ==> forall k :: 0 <= k < 6 && k != THROTTLE ==> axes[k] == old(axes[k])
  {
    ghost var was := axes[..];
    touched := false;
    for i := 0 to 5
      invariant forall k :: 0 <= k < 6 ==>
                  axes[k] == if SlewRank(k) < i then lim.SlewedAxis(prev[k], was[k], k) else was[k]
      invariant !touched ==> forall k :: 0 <= k < 6 && k != THROTTLE ==> axes[k] == was[k]
    {
      var changed := Slew(prev, axes, SlewAxis(i), lim.maxAxisStep);
      touched := touched || changed;
    }
    var changed := Slew(prev, axes, THROTTLE, lim.maxThrottleStep);
    touched := touched || changed;
  }

  function SlewAxis(i: int): (k: int)
    requires 0 <= i < 5
    ensures 0 <= k < 6 && k != THROTTLE && SlewRank(k) == i
  {
    [ROLL, PITCH, YAW, LAT_X, LAT_Y][i]
  }

  function SlewRank(k: int): int {
    if k < THROTTLE then k else if k == THROTTLE then 5 else k - 1
  }

  /** The absolute clamps of `apply`. */
  method ClampAll(lim: Limits, axes: array<real>) returns (touched: bool)
    requires lim.Valid() && axes.Length == 6
    modifies axes
    ensures forall k :: 0 <= k < 6 ==> axes[k] == lim.ClampedAxis(old(axes[k]), k)
    ensures !touched ==> forall k :: 0 <= k < 6 && k != THROTTLE ==> axes[k] == old(axes[k])
  {
    ghost var was := axes[..];
    touched := ClampAttitude(lim, axes);
    ghost var turned := axes[..];
    var c4 := ClampAbs(axes, LAT_X, lim.maxLateral);
    var c5 := ClampAbs(axes, LAT_Y, lim.maxLateral);
    touched := touched || c4 || c5;
    axes[THROTTLE] := Clamp(axes[THROTTLE], 0.0, 1.0);
    assert forall k :: 0 <= k < 3 ==> axes[k] == turned[k];
  }

  /** ... of roll, pitch and yaw. */
  method ClampAttitude(lim: Limits, axes: array<real>) returns (touched: bool)
    requires lim.Valid() && axes.Length == 6
    modifies axes
    ensures forall k :: 0 <= k < 3 ==> axes[k] == lim.ClampedAxis(old(axes[k]), k)
    ensures forall k :: 3 <= k < 6 ==> axes[k] == old(axes[k])
    ensures !touched ==> forall k :: 0 <= k < 3 ==> axes[k] == old(axes[k])
  {
    var c0 := ClampAbs(axes, ROLL, lim.maxTilt);
    var c1 := ClampAbs(axes, PITCH, lim.maxTilt);
    var c2 := ClampAbs(axes, YAW, lim.maxYaw);
    touched := c0 || c1 || c2;
  }
}
