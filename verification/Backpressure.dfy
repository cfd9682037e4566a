/** The token bucket, the smoothed round-trip time and the congestion level. */
module Backpressure {
  import opened Words

  // Tokens are 16.16 fixed point over unsigned 64-bit words. One thread writes; sums and products that
  // the source leaves unchecked wrap, as in an optimised build.

  const TOKEN_SCALE: int := 0x1_0000
  const BITS_NS: int := 8_000_000_000          // nanoseconds in a second times bits in a byte
  const U64_MAX: int := 0xFFFF_FFFF_FFFF_FFFF
  const WINDOW_NS: int := 100_000_000

  function SatMul(a: u64, b: u64): u64 { if a * b <= U64_MAX then a * b else U64_MAX }

  // ---- the bucket ----

  datatype Bucket = Bucket(tokens: u64, last: u64, drops: u64)

  datatype Call = Refill(now: u64) | Admit(bytes: u64, now: u64)

  /** Credit for `dt` nanoseconds. */
  function Gained(cap: u64, dt: u64): u64 { SatMul(SatMul(cap, dt) / BITS_NS, TOKEN_SCALE) }

  /** One second of capacity, or one byte. */
  function BurstLimit(cap: u64): u64 { Max((cap / 8 * TOKEN_SCALE) % U64_SIZE, TOKEN_SCALE) }

  function Refilled(cap: u64, b: Bucket, now: u64): Bucket {
    if now <= b.last then b
    else
      var gained := Gained(cap, now - b.last);
      b.(last := now,
         tokens := if gained > 0 then Min((b.tokens + gained) % U64_SIZE, BurstLimit(cap)) else b.tokens)
  }

  predicate Admits(b: Bucket, bytes: u64) { b.tokens >= SatMul(bytes, TOKEN_SCALE) }

  function Admitted(b: Bucket, bytes: u64): Bucket {
    if Admits(b, bytes) then b.(tokens := b.tokens - SatMul(bytes, TOKEN_SCALE))
    else b.(drops := (b.drops + 1) % U64_SIZE)
  }

  /** The bucket, the bytes it has let through and the refusals, after some calls. */
  datatype Tally = Tally(bucket: Bucket, sent: nat, refused: nat)

  function After(cap: u64, t: Tally, c: Call): Tally {
    var b := Refilled(cap, t.bucket, c.now);
    match c
    case Refill(_) => t.(bucket := b)
    case Admit(bytes, _) =>
      if Admits(b, bytes) then Tally(Admitted(b, bytes), t.sent + bytes, t.refused)
      else Tally(Admitted(b, bytes), t.sent, t.refused + 1)
  }

  function Run(cap: u64, t: Tally, calls: seq<Call>): Tally
    decreases calls
  {
    if calls == [] then t else Run(cap, After(cap, t, calls[0]), calls[1..])
  }

  /** Credit is only ever held in whole bytes: the fraction bits stay zero. */
  predicate Whole(b: Bucket) { b.tokens % TOKEN_SCALE == 0 }

  lemma GainedWhole(cap: u64, dt: u64)
    ensures Gained(cap, dt) % TOKEN_SCALE == 0 && Gained(cap, dt) <= 2_305_843_009 * TOKEN_SCALE
    ensures BITS_NS * Gained(cap, dt) <= TOKEN_SCALE * (cap * dt)
  {
    var p := SatMul(cap, dt);
    assert p / BITS_NS <= 2_305_843_009;
    assert BITS_NS * (p / BITS_NS) <= p <= cap * dt;
  }

  lemma BurstWhole(cap: u64)
    ensures BurstLimit(cap) % TOKEN_SCALE == 0 && BurstLimit(cap) <= Max(cap / 8, 1) * TOKEN_SCALE
  {
    var q, m := cap / 8, 0x1_0000_0000_0000;
    assert q * TOKEN_SCALE == (q / m * U64_SIZE) + (q % m) * TOKEN_SCALE;
    assert (q * TOKEN_SCALE) % U64_SIZE == (q % m) * TOKEN_SCALE;
  }

  lemma WrappedSum(a: u64, b: u64)
    requires a % TOKEN_SCALE == 0 && b % TOKEN_SCALE == 0
    ensures (a + b) % U64_SIZE <= a + b && (a + b) % U64_SIZE % TOKEN_SCALE == 0
  {
  }

  /** What one refill does: credit grows by no more than the elapsed time earns, stays within the burst
      limit and in whole bytes, and time does not run backwards. */
  lemma RefillBound(cap: u64, b: Bucket, now: u64)
    requires Whole(b)
    ensures var r := Refilled(cap, b, now);
            && Whole(r) && r.last == Max(b.last, now) && r.drops == b.drops
            && BITS_NS * (r.tokens - b.tokens) <= TOKEN_SCALE * (cap * (r.last - b.last))
            && (b.tokens <= BurstLimit(cap) ==> r.tokens <= BurstLimit(cap))
  {
    if now > b.last {
      GainedWhole(cap, now - b.last);
      BurstWhole(cap);
      WrappedSum(b.tokens, Gained(cap, now - b.last));
    } else {
      assert cap * 0 == 0;
    }
  }

  lemma AdmitExact(b: Bucket, bytes: u64)
    requires Whole(b)
    ensures Whole(Admitted(b, bytes)) && Admitted(b, bytes).last == b.last
    ensures Admits(b, bytes) <==> bytes * TOKEN_SCALE <= b.tokens
    ensures Admits(b, bytes) ==> Admitted(b, bytes).tokens + bytes * TOKEN_SCALE == b.tokens
    ensures !Admits(b, bytes) ==> Admitted(b, bytes).tokens == b.tokens
  {
    assert b.tokens < U64_MAX;
  }

  ghost predicate Spends(cap: u64, t: Tally, e: Tally) {
    BITS_NS * ((e.sent - t.sent) * TOKEN_SCALE + e.bucket.tokens - t.bucket.tokens)
    <= TOKEN_SCALE * (cap * (e.bucket.last - t.bucket.last))
  }

  /** Every refusal is counted as a drop. */
  predicate Drops(t: Tally, e: Tally) {
    e.bucket.drops == (t.bucket.drops + e.refused - t.refused) % U64_SIZE
  }

  /** From `t` to `e` at capacity `cap`: what was let through, with the credit left, is at most the credit
      before and what the capacity earns between the two refill instants; credit stays in whole bytes and
      within the burst limit; every refusal is counted as a drop. */
  ghost predicate Within(cap: u64, t: Tally, e: Tally) {
    && Whole(e.bucket) && e.bucket.last >= t.bucket.last && e.sent >= t.sent && e.refused >= t.refused
    && Spends(cap, t, e)
    && Drops(t, e)
    && (t.bucket.tokens <= BurstLimit(cap) ==> e.bucket.tokens <= BurstLimit(cap))
  }

  lemma WithinStep(cap: u64, t: Tally, c: Call)
    requires Whole(t.bucket)
    ensures Within(cap, t, After(cap, t, c))
  {
    RefillBound(cap, t.bucket, c.now);
    var b := Refilled(cap, t.bucket, c.now);
    match c
    case Refill(_) =>
    case Admit(bytes, _) => AdmitExact(b, bytes);
  }

  lemma WithinTwice(cap: u64, t: Tally, m: Tally, e: Tally)
    requires Within(cap, t, m) && Within(cap, m, e)
    ensures Within(cap, t, e)
  {
    SpendsTwice(cap, t, m, e);
    DropsTwice(t, m, e);
  }

  lemma DropsTwice(t: Tally, m: Tally, e: Tally)
    requires Drops(t, m) && Drops(m, e)
    ensures Drops(t, e)
  {
    ModAdd(t.bucket.drops + m.refused - t.refused, e.refused - m.refused, U64_SIZE);
  }

  lemma SpendsTwice(cap: u64, t: Tally, m: Tally, e: Tally)
    requires Spends(cap, t, m) && Spends(cap, m, e)
    ensures Spends(cap, t, e)
  {
    Earned(cap, t.bucket.last, m.bucket.last, e.bucket.last);
  }

  lemma Earned(cap: nat, a: int, b: int, c: int)
    ensures cap * (c - a) == cap * (b - a) + cap * (c - b)
  {
  }

  /** The bound holds over any calls at any times, clock steps backwards included, and the burst limit is
      at most one second of capacity, or one byte. */
  lemma {:induction false} TokenBound(cap: u64, t: Tally, calls: seq<Call>)
    requires Whole(t.bucket)
    ensures Within(cap, t, Run(cap, t, calls))
    ensures BurstLimit(cap) <= Max(cap / 8, 1) * TOKEN_SCALE
    decreases calls
  {
    BurstWhole(cap);
    if calls == [] {
      assert cap * 0 == 0;
    } else {
      var m := After(cap, t, calls[0]);
      WithinStep(cap, t, calls[0]);
      TokenBound(cap, m, calls[1..]);
      WithinTwice(cap, t, m, Run(cap, m, calls[1..]));
    }
  }

  // ---- ... and at least what whole bytes allow ----

  /** The refill of a call at `now` is not cut short: its product fits the word and its credit the limit. */
  predicate Uncut(cap: u64, b: Bucket, now: u64) {
    now > b.last ==> cap * (now - b.last) <= U64_MAX && b.tokens + Gained(cap, now - b.last) <= BurstLimit(cap)
  }

  ghost predicate RunUncut(cap: u64, t: Tally, calls: seq<Call>)
    decreases calls
  {
    calls == [] || (Uncut(cap, t.bucket, calls[0].now) && RunUncut(cap, After(cap, t, calls[0]), calls[1..]))
  }

  /** How many calls of a run find that time has passed. */
  function Refills(last: u64, calls: seq<Call>): nat
    decreases calls
  {
    if calls == [] then 0
    else (if calls[0].now > last then 1 else 0) + Refills(Max(last, calls[0].now), calls[1..])
  }

  /** From `t` to `e` with `n` refills, what was let through and the credit left fall short of the credit
      before and what was earned by less than a byte for each refill. */
  ghost predicate Delivers(cap: u64, t: Tally, e: Tally, n: nat) {
    TOKEN_SCALE * (cap * (e.bucket.last - t.bucket.last))
    <= BITS_NS * ((e.sent - t.sent) * TOKEN_SCALE + e.bucket.tokens - t.bucket.tokens)
       + n * (TOKEN_SCALE * (BITS_NS - 1))
  }

  lemma DeliversStep(cap: u64, t: Tally, c: Call)
    requires Whole(t.bucket) && Uncut(cap, t.bucket, c.now)
    ensures Delivers(cap, t, After(cap, t, c), if c.now > t.bucket.last then 1 else 0)
    ensures After(cap, t, c).bucket.last == Max(t.bucket.last, c.now)
  {
    var b := Refilled(cap, t.bucket, c.now);
    RefillBound(cap, t.bucket, c.now);
    UncutRefill(cap, t.bucket, c.now);
    match c
    case Refill(_) =>
    case Admit(bytes, _) => AdmitExact(b, bytes);
  }

  lemma UncutRefill(cap: u64, b: Bucket, now: u64)
    requires Uncut(cap, b, now)
    ensures var r := Refilled(cap, b, now);
            TOKEN_SCALE * (cap * (r.last - b.last))
            <= BITS_NS * (r.tokens - b.tokens) + if now > b.last then TOKEN_SCALE * (BITS_NS - 1) else 0
  {
    if now > b.last {
      GainedIs(cap, now - b.last, cap * (now - b.last));
      Floored(cap * (now - b.last));
      BurstFits(cap);
    } else {
      assert cap * 0 == 0;
    }
  }

  lemma BurstFits(cap: u64)
    ensures BurstLimit(cap) <= U64_MAX
  {
  }

  lemma Floored(p: nat)
    ensures TOKEN_SCALE * p <= BITS_NS * (p / BITS_NS * TOKEN_SCALE) + TOKEN_SCALE * (BITS_NS - 1)
  {
    assert p <= BITS_NS * (p / BITS_NS) + (BITS_NS - 1);
  }

  lemma DeliversTwice(cap: u64, t: Tally, m: Tally, e: Tally, j: nat, k: nat)
    requires Delivers(cap, t, m, j) && Delivers(cap, m, e, k)
    ensures Delivers(cap, t, e, j + k)
  {
    Earned(cap, t.bucket.last, m.bucket.last, e.bucket.last);
  }

  /** While neither the word nor the burst limit cuts a refill short, each costs less than a byte. */
  lemma {:induction false} TokensDelivered(cap: u64, t: Tally, calls: seq<Call>)
    requires Whole(t.bucket) && RunUncut(cap, t, calls)
    ensures Delivers(cap, t, Run(cap, t, calls), Refills(t.bucket.last, calls))
    decreases calls
  {
    if calls == [] {
      assert cap * 0 == 0;
    } else {
      var m := After(cap, t, calls[0]);
      WithinStep(cap, t, calls[0]);
      DeliversStep(cap, t, calls[0]);
      TokensDelivered(cap, m, calls[1..]);
      DeliversTwice(cap, t, m, Run(cap, m, calls[1..]), if calls[0].now > t.bucket.last then 1 else 0,
                    Refills(m.bucket.last, calls[1..]));
    }
  }

  // ---- where the arithmetic and the flooring fall short ----

  predicate SumFits(cap: u64, t: u64, dt: u64) { t + Gained(cap, dt) <= U64_MAX }

  /** No sum or product in a refill wraps, whatever the credit and the elapsed time, exactly below this
      capacity, a little under 2^51. */
  lemma RefillNeverWraps(cap: u64)
    ensures (cap / 8 * TOKEN_SCALE <= U64_MAX
             && forall t: u64, dt: u64 :: t <= BurstLimit(cap) ==> SumFits(cap, t, dt))
            <==> cap / 8 + 2_305_843_009 < 0x1_0000_0000_0000
  {
    if cap / 8 + 2_305_843_009 < 0x1_0000_0000_0000 {
      BurstWhole(cap);
      forall t: u64, dt: u64 | t <= BurstLimit(cap)
        ensures SumFits(cap, t, dt)
      {
        GainedWhole(cap, dt);
      }
    } else if cap / 8 * TOKEN_SCALE <= U64_MAX {
      LongRefill(cap, cap / 8, U64_MAX);
      assert !SumFits(cap, BurstLimit(cap), U64_MAX);
    }
  }

  /** After the longest interval any capacity has earned the most a product can hold. */
  lemma LongRefill(cap: u64, bytes: nat, dt: u64)
    requires bytes == cap / 8 && bytes * TOKEN_SCALE <= U64_MAX && dt == U64_MAX
    requires bytes + 2_305_843_009 >= 0x1_0000_0000_0000
    ensures BurstLimit(cap) == bytes * TOKEN_SCALE && Gained(cap, dt) == 2_305_843_009 * TOKEN_SCALE
  {
    MulMono(dt, 1, cap);
    GainedIs(cap, dt, cap * dt);
  }

  /** Refilling half way through loses credit exactly when the two remainders make up a byte, or, where the
      product of the whole saturates, when the two halves fall short of its whole bytes. It gains credit
      exactly when the product of the whole saturates and the two halves exceed it. */
  lemma SplitRefill(cap: u64, d1: u64, d2: u64)
    requires d1 + d2 <= U64_MAX
    ensures var a, b := cap * d1, cap * d2;
            && (Gained(cap, d1) + Gained(cap, d2) < Gained(cap, d1 + d2)
                <==> if a + b <= U64_MAX then a % BITS_NS + b % BITS_NS >= BITS_NS
                     else a / BITS_NS + b / BITS_NS < U64_MAX / BITS_NS)
            && (Gained(cap, d1) + Gained(cap, d2) > Gained(cap, d1 + d2)
                <==> a + b > U64_MAX
                     && Min(a, U64_MAX) / BITS_NS + Min(b, U64_MAX) / BITS_NS > U64_MAX / BITS_NS)
  {
    var a, b := cap * d1, cap * d2;
    assert cap * (d1 + d2) == a + b;
    GainedIs(cap, d1, a);
    GainedIs(cap, d2, b);
    GainedIs(cap, d1 + d2, a + b);
    SplitDivision(a, b);
    DivisionGrows(a);
    DivisionGrows(b);
  }

  lemma GainedIs(cap: u64, dt: u64, p: nat)
    requires p == cap * dt
    ensures Gained(cap, dt) == Min(p, U64_MAX) / BITS_NS * TOKEN_SCALE
  {
  }

  lemma DivisionGrows(a: nat)
    ensures a >= U64_MAX ==> a / BITS_NS >= U64_MAX / BITS_NS
  {
  }

  lemma SplitDivision(a: nat, b: nat)
    ensures a / BITS_NS + b / BITS_NS <= (a + b) / BITS_NS
    ensures a / BITS_NS + b / BITS_NS == (a + b) / BITS_NS <==> a % BITS_NS + b % BITS_NS < BITS_NS
  {
  }

  /** Every call comes before the capacity has earned a whole byte since the one before. */
  ghost predicate Rushed(cap: u64, last: u64, calls: seq<Call>)
    decreases calls
  {
    calls == [] || (cap * (calls[0].now - last) < BITS_NS && Rushed(cap, Max(last, calls[0].now), calls[1..]))
  }

  /** A bucket polled that often earns nothing, however long it goes on. */
  lemma {:induction false} Starved(cap: u64, t: Tally, calls: seq<Call>)
    requires Whole(t.bucket) && Rushed(cap, t.bucket.last, calls)
    ensures var e := Run(cap, t, calls);
            (e.sent - t.sent) * TOKEN_SCALE + e.bucket.tokens == t.bucket.tokens
    decreases calls
  {
    if calls != [] {
      var c, m := calls[0], After(cap, t, calls[0]);
      WithinStep(cap, t, c);
      StarvedStep(cap, t, c);
      Starved(cap, m, calls[1..]);
    }
  }

  lemma StarvedStep(cap: u64, t: Tally, c: Call)
    requires Whole(t.bucket) && cap * (c.now - t.bucket.last) < BITS_NS
    ensures var m := After(cap, t, c);
            && (m.sent - t.sent) * TOKEN_SCALE + m.bucket.tokens == t.bucket.tokens
            && m.bucket.last == Max(t.bucket.last, c.now)
  {
    if c.now > t.bucket.last { assert Gained(cap, c.now - t.bucket.last) == 0; }
    match c
    case Refill(_) =>
    case Admit(bytes, _) => AdmitExact(t.bucket.(last := Max(t.bucket.last, c.now)), bytes);
  }

  // ---- smoothed round-trip time ----

  function Smoothed(was: u64, sample: u64): u64 {
    if was == 0 then sample
    else
      SmoothedFits(was, sample);
      was - was / 4 + sample / 4
  }

  lemma SmoothedFits(was: u64, sample: u64)
    ensures Min(was, sample) <= was - was / 4 + sample / 4 <= Max(was, sample)
  {
  }

  /** The estimate stays between the last estimate and the sample, never falls back to zero, and gets
      strictly closer exactly while the two differ in their quarters: within 3 ns it may stop. */
  lemma SmoothedBetween(was: u64, sample: u64)
    requires was > 0
    ensures var r := Smoothed(was, sample);
            && Min(was, sample) <= r <= Max(was, sample) && r > 0
            && (r != was <==> was / 4 != sample / 4)
            && (was / 4 == sample / 4 ==> -3 <= was - sample <= 3)
  {
    SmoothedFits(was, sample);
  }

  // ---- congestion ----

  datatype Congestion = Normal | Elevated | High | Critical

  function Severity(c: Congestion): nat {
    match c
    case Normal => 0
    case Elevated => 1
    case High => 2
    case Critical => 3
  }

  function FractionBp(c: Congestion): nat {
    match c
    case Normal => 10_000
    case Elevated => 7_000
    case High => 4_500
    case Critical => 2_500
  }

  function SatAdd(a: u64, b: u64): u64 { Min(a + b, U64_MAX) }

  function Level(depth: u64, blocked: u64): Congestion {
    var score := SatAdd(SatMul(depth, 2), Min(blocked, 64));
    if score == 0 then Normal else if score < 8 then Elevated else if score < 40 then High else Critical
  }

  function Suggested(cap: u64, c: Congestion): u64 { cap * FractionBp(c) % U64_SIZE / 10_000 }

  /** A longer queue or more blocked sends never lower the level or raise the suggested bitrate, and the
      suggestion never exceeds the capacity nor falls below a quarter of it. */
  lemma CongestionMonotone(cap: u64, d1: u64, b1: u64, d2: u64, b2: u64)
    requires d1 <= d2 && b1 <= b2 && cap * 10_000 <= U64_MAX
    ensures Severity(Level(d1, b1)) <= Severity(Level(d2, b2))
    ensures cap / 4 <= Suggested(cap, Level(d2, b2)) <= Suggested(cap, Level(d1, b1)) <= cap
  {
    LevelMonotone(d1, b1, d2, b2);
    FractionFalls(cap, Level(d1, b1), Level(d2, b2));
  }

  lemma LevelMonotone(d1: u64, b1: u64, d2: u64, b2: u64)
    requires d1 <= d2 && b1 <= b2
    ensures Severity(Level(d1, b1)) <= Severity(Level(d2, b2))
  {
  }

  lemma SuggestedIs(cap: u64, c: Congestion)
    requires cap * 10_000 <= U64_MAX
    ensures Suggested(cap, c) == cap * FractionBp(c) / 10_000
  {
    assert cap * FractionBp(c) <= cap * 10_000;
  }

  lemma FractionFalls(cap: u64, c1: Congestion, c2: Congestion)
    requires Severity(c1) <= Severity(c2) && cap * 10_000 <= U64_MAX
    ensures cap / 4 <= Suggested(cap, c2) <= Suggested(cap, c1) <= cap
  {
    SuggestedIs(cap, c1);
    SuggestedIs(cap, c2);
    ScaledFalls(cap, FractionBp(c2), FractionBp(c1));
  }

  lemma ScaledFalls(cap: nat, f: nat, g: nat)
    requires 2_500 <= f <= g <= 10_000
    ensures cap / 4 <= cap * f / 10_000 <= cap * g / 10_000 <= cap
  {
    assert cap * 2_500 <= cap * f <= cap * g <= cap * 10_000;
  }

  /** A healthy link is offered its whole capacity exactly while the product fits the word. */
  lemma NormalIsCapacity(cap: u64)
    ensures Suggested(cap, Normal) == cap <==> cap * 10_000 <= U64_MAX
  {
    if cap * 10_000 > U64_MAX { assert cap * 10_000 % U64_SIZE <= cap * 10_000 - U64_SIZE; }
  }

  // ---- the object ----

  class Signal {
    var capacityBps: u64
    var bucket: Bucket
    var queueDepth: u64
    var peakQueueDepth: u64
    var blockedSends: u64
    var blockedWindow: u64
    var windowStartNs: u64
    var rttEwmaNs: u64

    constructor (capacityBps: u64)
      ensures this.capacityBps == Max(capacityBps, 1) && bucket == Bucket(0, 0, 0) && Whole(bucket)
      ensures queueDepth == peakQueueDepth == 0 && blockedSends == blockedWindow == 0 && rttEwmaNs == 0
    {
      this.capacityBps := Max(capacityBps, 1);
      bucket := Bucket(0, 0, 0);
      queueDepth, peakQueueDepth, blockedSends, blockedWindow, windowStartNs, rttEwmaNs := 0, 0, 0, 0, 0, 0;
    }

    method SetCapacityBps(bps: u64)
      modifies this`capacityBps
      ensures capacityBps == Max(bps, 1)
    {
      capacityBps := Max(bps, 1);
    }

    method NoteRttNs(sampleNs: u64)
      modifies this`rttEwmaNs
      ensures rttEwmaNs == Smoothed(old(rttEwmaNs), sampleNs)
    {
      SmoothedFits(rttEwmaNs, sampleNs);
      rttEwmaNs := if rttEwmaNs == 0 then sampleNs else rttEwmaNs - rttEwmaNs / 4 + sampleNs / 4;
    }

    method SetQueueDepth(depth: u64)
      modifies this`queueDepth, this`peakQueueDepth
      ensures queueDepth == depth && peakQueueDepth == Max(old(peakQueueDepth), depth)
    {
      queueDepth := depth;
      if peakQueueDepth < depth { peakQueueDepth := depth; }
    }

    /** Counts a blocked send, starting a new window when the last began over 100 ms ago. */
    method NoteSendBlocked(nowNs: u64)
      modifies this`blockedSends, this`blockedWindow, this`windowStartNs
      ensures blockedSends == (old(blockedSends) + 1) % U64_SIZE && windowStartNs > 0
      ensures var fresh0 := old(windowStartNs) == 0 || nowNs - old(windowStartNs) > WINDOW_NS;
              && windowStartNs == (if fresh0 then Max(nowNs, 1) else old(windowStartNs))
              && blockedWindow == (if fresh0 then 1 else (old(blockedWindow) + 1) % U64_SIZE)
    {
      if windowStartNs == 0 || SatSub(nowNs, windowStartNs) > WINDOW_NS {
        blockedWindow := 1;
        windowStartNs := Max(nowNs, 1);
      } else {
        blockedWindow := (blockedWindow + 1) % U64_SIZE;
      }
      blockedSends := (blockedSends + 1) % U64_SIZE;
    }

    method Refill(nowNs: u64)
      requires Whole(bucket)
      modifies this`bucket
      ensures bucket == Refilled(capacityBps, old(bucket), nowNs) && Whole(bucket)
    {
      RefillBound(capacityBps, bucket, nowNs);
      if nowNs <= bucket.last { return; }
      var gained := SatMul(SatMul(capacityBps, nowNs - bucket.last) / BITS_NS, TOKEN_SCALE);
      bucket := bucket.(last := nowNs);
      if gained > 0 {
        var burst := capacityBps / 8 * TOKEN_SCALE % U64_SIZE;
        bucket := bucket.(tokens := Min((bucket.tokens + gained) % U64_SIZE, Max(burst, TOKEN_SCALE)));
      }
    }

    method Admit(bytes: u64, nowNs: u64) returns (ok: bool)
      requires Whole(bucket)
      modifies this`bucket
      ensures Whole(bucket)
      ensures ok <==> bytes * TOKEN_SCALE <= Refilled(capacityBps, old(bucket), nowNs).tokens
      ensures forall sent: nat, refused: nat ::
                Tally(bucket, if ok then sent + bytes else sent, if ok then refused else refused + 1)
                == After(capacityBps, Tally(old(bucket), sent, refused), Call.Admit(bytes, nowNs))
    {
      Refill(nowNs);
      AdmitExact(bucket, bytes);
      var want := SatMul(bytes, TOKEN_SCALE);
      ok := bucket.tokens >= want;
      if ok {
        bucket := bucket.(tokens := bucket.tokens - want);
      } else {
        bucket := bucket.(drops := (bucket.drops + 1) % U64_SIZE);
      }
    }

    method Congested() returns (c: Congestion)
      ensures c == Level(queueDepth, blockedWindow)
    {
      var blocked := Min(blockedWindow, 64);
      var score := SatAdd(SatMul(queueDepth, 2), blocked);
      if score == 0 {
        c := Normal;
      } else if score <= 7 {
        c := Elevated;
      } else if score <= 39 {
        c := High;
      } else {
        c := Critical;
      }
    }

    method SuggestedBitrateBps() returns (bps: u64)
      ensures bps == Suggested(capacityBps, Level(queueDepth, blockedWindow))
    {
      var c := Congested();
      bps := capacityBps * FractionBp(c) % U64_SIZE / 10_000;
    }
  }
}
