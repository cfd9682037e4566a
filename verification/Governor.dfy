/** The encoder governor: a suggested bitrate, clamped to a session's range and approached in bounded
    steps. */
module Governor {
  import opened Words

  const U64_MAX: int := 0xFFFF_FFFF_FFFF_FFFF

  function Clamp(v: u64, lo: u64, hi: u64): u64
    requires lo <= hi
  {
    if v < lo then lo else if v > hi then hi else v
  }

  function AbsDiff(a: u64, b: u64): u64 { if a < b then b - a else a - b }

  /** The longest step towards `want`. */
  function Stride(want: u64, minStep: u64): u64 { Max(Max(want / 4, minStep), 1) }

  /** The next bitrate: `want` when it is within one stride, otherwise one stride closer to it. */
  function Slewed(last: u64, want: u64, minStep: u64): u64 {
    if AbsDiff(last, want) <= Stride(want, minStep) then want
    else if last < want then last + Stride(want, minStep)
    else last - Stride(want, minStep)
  }

  /** With saturating sums and differences, as the source has it. */
  method Slew(last: u64, want: u64, minStep: u64) returns (next: u64)
    ensures next == Slewed(last, want, minStep)
  {
    if last == want { return want; }
    var step := Min(AbsDiff(want, last), Max(Max(want / 4, minStep), 1));
    if want > last {
      next := Min(Min(last + step, U64_MAX), want);
    } else {
      next := Max(SatSub(last, step), want);
    }
  }

  /** A tick never passes its target and never leaves the range both ends are in; the distance shrinks by
      a whole stride or to nothing. */
  lemma SlewApproaches(last: u64, want: u64, minStep: u64, lo: u64, hi: u64)
    requires lo <= last <= hi && lo <= want <= hi
    ensures var next := Slewed(last, want, minStep);
            && lo <= next <= hi && Min(last, want) <= next <= Max(last, want)
            && AbsDiff(next, want) == SatSub(AbsDiff(last, want), Stride(want, minStep))
            && (last != want ==> AbsDiff(next, want) < AbsDiff(last, want))
  {
  }

  /** The bitrate after ticks on a steady target. */
  function Steady(last: u64, want: u64, minStep: u64, n: nat): u64
    decreases n, last, want, minStep
  {
    if n == 0 then last else Slewed(Steady(last, want, minStep, n - 1), want, minStep)
  }

  lemma {:induction false} SteadyDistance(last: u64, want: u64, minStep: u64, n: nat)
    ensures AbsDiff(Steady(last, want, minStep, n), want) == SatSub(AbsDiff(last, want), n * Stride(want, minStep))
    decreases n
  {
    if n > 0 {
      SteadyDistance(last, want, minStep, n - 1);
      SlewApproaches(Steady(last, want, minStep, n - 1), want, minStep, 0, U64_MAX);
      OneMore(AbsDiff(last, want), n, Stride(want, minStep));
    }
  }

  lemma OneMore(d: nat, n: nat, stride: nat)
    requires n > 0
    ensures SatSub(SatSub(d, (n - 1) * stride), stride) == SatSub(d, n * stride)
  {
    assert n * stride == (n - 1) * stride + stride;
  }

  /** The target is met exactly when that many strides cover the distance, and then kept. */
  lemma SteadyReaches(last: u64, want: u64, minStep: u64, n: nat)
    ensures Steady(last, want, minStep, n) == want <==> AbsDiff(last, want) <= n * Stride(want, minStep)
  {
    SteadyDistance(last, want, minStep, n);
  }

  function MinStep(maxBps: u64): u64 { Max(maxBps / 64, 1000) }

  /** Any steady signal is met within 65 ticks from anywhere in the range. */
  lemma Converges(lo: u64, hi: u64, last: u64, signal: u64, n: nat)
    requires lo <= hi && lo <= last <= hi && n >= 65
    ensures Steady(last, Clamp(signal, lo, hi), MinStep(hi), n) == Clamp(signal, lo, hi)
  {
    var want := Clamp(signal, lo, hi);
    var stride := Stride(want, MinStep(hi));
    SteadyReaches(last, want, MinStep(hi), n);
    assert stride >= hi / 64 && stride >= 1000;
    assert 65 * stride >= hi;
    Covers(n, stride);
  }

  lemma Covers(n: nat, stride: nat)
    requires n >= 65
    ensures 65 * stride <= n * stride
  {
  }

  /** 64 ticks are not always enough. */
  lemma SixtyFourTooFew()
    ensures exists hi: u64, last: u64 :: last <= hi && Steady(last, 0, MinStep(hi), 64) != 0
  {
    var hi := 64_063;
    SteadyReaches(hi, 0, MinStep(hi), 64);
    assert Steady(hi, 0, MinStep(hi), 64) != 0;
  }

  /** The bitrates of a run over any signals. */
  function Ticks(last: u64, lo: u64, hi: u64, signals: seq<u64>): (r: seq<u64>)
    requires lo <= hi
    ensures |r| == |signals|
    decreases signals
  {
    if signals == [] then []
    else
      var next := Slewed(last, Clamp(signals[0], lo, hi), MinStep(hi));
      [next] + Ticks(next, lo, hi, signals[1..])
  }

  /** Whatever the signal does, every bitrate is in range, lies between the one before it and the clamped
      signal of its tick, and is the clamped signal or a whole stride closer to it. */
  lemma {:induction false} TicksInRange(last: u64, lo: u64, hi: u64, signals: seq<u64>, k: nat)
    requires lo <= last <= hi && k < |signals|
    ensures var r := Ticks(last, lo, hi, signals);
            var was := if k == 0 then last else r[k - 1];
            var want := Clamp(signals[k], lo, hi);
            && lo <= was <= hi && lo <= r[k] <= hi
            && Min(was, want) <= r[k] <= Max(was, want)
            && AbsDiff(r[k], want) == SatSub(AbsDiff(was, want), Stride(want, MinStep(hi)))
    decreases signals
  {
    var next := Slewed(last, Clamp(signals[0], lo, hi), MinStep(hi));
    SlewApproaches(last, Clamp(signals[0], lo, hi), MinStep(hi), lo, hi);
    if k > 0 {
      TicksInRange(next, lo, hi, signals[1..], k - 1);
      assert Ticks(last, lo, hi, signals)[1..] == Ticks(next, lo, hi, signals[1..]);
    }
  }

  class Encoder {
    var bitrate: u64

    constructor (bitrate: u64)
      ensures this.bitrate == bitrate
    {
      this.bitrate := bitrate;
    }

    method SetBitrate(bps: u64)
      modifies this
      ensures bitrate == bps
    {
      bitrate := bps;
    }
  }

  class EncoderGovernor {
    const minBps: u64
    const maxBps: u64
    const minStep: u64
    var last: u64

    ghost predicate Valid()
      reads this
    {
      minBps <= last <= maxBps && minStep == MinStep(maxBps)
    }

    constructor (minBps: u64, maxBps: u64)
      requires minBps <= maxBps
      ensures Valid() && this.minBps == minBps && this.maxBps == maxBps && last == minBps
    {
      this.minBps, this.maxBps, this.minStep := minBps, maxBps, Max(maxBps / 64, 1000);
      last := minBps;
    }

    method Tick(signal: u64, enc: Encoder) returns (next: u64)
      requires Valid()
      modifies this`last, enc
      ensures Valid() && next == last == enc.bitrate
      ensures [next] == Ticks(old(last), minBps, maxBps, [signal])
    {
      var want := Clamp(signal, minBps, maxBps);
      next := Slew(last, want, minStep);
      SlewApproaches(last, want, minStep, minBps, maxBps);
      enc.SetBitrate(next);
      last := next;
    }
  }
}
