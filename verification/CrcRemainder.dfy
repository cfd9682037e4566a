/** The CRC-32 as the remainder of a polynomial division over the field of two elements. */
module CrcRemainder {
  import opened Crc
  import opened Words

  // A number stands for the polynomial of its bits, `Xor` is the sum, and `Mul` the product without carries.

  function Mul(g: nat, q: nat): nat
    decreases q, g
  {
    if q == 0 then 0 else Xor(if q % 2 == 1 then g else 0, 2 * Mul(g, q / 2))
  }

  lemma MulStep(g: nat, q: nat)
    ensures Mul(g, q) == Xor(if q % 2 == 1 then g else 0, 2 * Mul(g, q / 2))
  {
  }

  lemma {:induction false} XorDouble(a: nat, b: nat)
    ensures Xor(2 * a, 2 * b) == 2 * Xor(a, b)
  {
    Doubled(a, b, 2 * a, 2 * b);
  }

  lemma {:induction false} Doubled(a: nat, b: nat, u: nat, v: nat)
    requires u == 2 * a && v == 2 * b
    ensures Xor(u, v) == 2 * Xor(a, b)
  {
    XorParts(u, v);
    Halves(u, v, a, b);
    Combine(Xor(u, v), 0, Xor(a, b));
  }

  lemma Halves(u: nat, v: nat, a: nat, b: nat)
    requires u == 2 * a && v == 2 * b
    ensures u / 2 == a && v / 2 == b && (u + v) % 2 == 0
  {
  }

  lemma {:induction false} XorShifted(a: nat, b: nat, k: nat)
    ensures Xor(a * Pow2(k), b * Pow2(k)) == Xor(a, b) * Pow2(k)
    decreases k
  {
    if k > 0 {
      XorShifted(a, b, k - 1);
      ShiftedOnce(a, b, Xor(a, b), Pow2(k - 1), Pow2(k));
    }
  }

  lemma {:induction false} ShiftedOnce(a: nat, b: nat, x: nat, p: nat, q: nat)
    requires q == 2 * p && Xor(a * p, b * p) == x * p
    ensures Xor(a * q, b * q) == x * q
  {
    Twice(a, p, q);
    Twice(b, p, q);
    Twice(x, p, q);
    Doubled(a * p, b * p, a * q, b * q);
  }

  lemma Twice(a: nat, p: nat, q: nat)
    requires q == 2 * p
    ensures a * q == 2 * (a * p)
  {
  }

  /** Sums of four terms may be regrouped. */
  lemma XorFour(a: nat, b: nat, c: nat, d: nat)
    ensures Xor(Xor(a, b), Xor(c, d)) == Xor(Xor(a, c), Xor(b, d))
  {
    XorAssoc(a, b, Xor(c, d));
    XorAssoc(b, c, d);
    XorComm(b, c);
    XorAssoc(c, b, d);
    XorAssoc(a, c, Xor(b, d));
  }

  /** The product distributes over the sum. */
  lemma {:induction false} MulXor(g: nat, a: nat, b: nat)
    ensures Mul(g, Xor(a, b)) == Xor(Mul(g, a), Mul(g, b))
    decreases a + b
  {
    if a == 0 && b == 0 {
      XorZero(0);
    } else {
      var x, y, m, n := a / 2, b / 2, Mul(g, a / 2), Mul(g, b / 2);
      MulXor(g, x, y);
      XorParts(a, b);
      MulStep(g, a);
      MulStep(g, b);
      MulStep(g, Xor(a, b));
      var ga, gb := if a % 2 == 1 then g else 0, if b % 2 == 1 then g else 0;
      XorFour(ga, 2 * m, gb, 2 * n);
      XorDouble(m, n);
      XorZero(g);
      XorZero(0);
      OddSum(a, b);
    }
  }

  /** A product with a modulus of degree `k` has degree at least `k`, unless the other factor is 0. */
  lemma {:induction false} MulDegree(g: nat, q: nat, k: nat)
    requires Pow2(k) <= g < Pow2(k + 1) && q > 0
    ensures Mul(g, q) >= Pow2(k)
    decreases q
  {
    MulStep(g, q);
    if q == 1 {
      XorZero(g);
    } else {
      MulDegree(g, q / 2, k);
      var m := 2 * Mul(g, q / 2);
      XorZero(m);
      XorComm(g, m);
      XorTop(m, g, k + 1);
    }
  }

  /** `r` is a remainder of `n` modulo `g`, which has degree `k`. */
  ghost predicate IsRemainder(n: nat, g: nat, k: nat, r: nat) {
    r < Pow2(k) && exists q: nat :: DividesOut(n, g, q, r)
  }

  predicate DividesOut(n: nat, g: nat, q: nat, r: nat) { n == Xor(Mul(g, q), r) }

  /** There is only one. */
  lemma RemainderUnique(n: nat, g: nat, k: nat, r: nat, s: nat)
    requires Pow2(k) <= g < Pow2(k + 1) && IsRemainder(n, g, k, r) && IsRemainder(n, g, k, s)
    ensures r == s
  {
    var p: nat :| DividesOut(n, g, p, r);
    var q: nat :| DividesOut(n, g, q, s);
    XorFour(Mul(g, p), r, Mul(g, q), s);
    XorZero(n);
    MulXor(g, p, q);
    ZeroSum(Mul(g, Xor(p, q)), Xor(r, s));
    XorBound(r, s, k);
    if Xor(p, q) > 0 { MulDegree(g, Xor(p, q), k); }
    ZeroSum(r, s);
  }

  lemma ZeroSum(a: nat, b: nat)
    ensures Xor(a, b) == 0 <==> a == b
  {
    XorZero(b);
    if Xor(a, b) == 0 { XorCancel(a, b, b); }
  }

  // ---- the message ----

  /** The number whose bits, highest first, these are. */
  function Value(bits: seq<bool>): nat
    decreases bits
  {
    if bits == [] then 0 else 2 * Value(bits[..|bits| - 1]) + Bit(bits[|bits| - 1])
  }

  /** The generator with its leading term: x^32 + x^26 + ... + 1. */
  function Modulus(): nat { U32_SIZE + GENERATOR }

  /** What is divided: the message times x^32, with the start value added to its first 32 bits. */
  function Dividend(c: nat, bits: seq<bool>): nat {
    Xor(c * Pow2(|bits|), Value(bits) * U32_SIZE)
  }

  lemma {:induction false} DivisionAppend(c: nat, bits: seq<bool>, d: bool)
    ensures Division(c, bits + [d]) == Divide(Division(c, bits), d)
    decreases bits
  {
    if bits == [] {
      assert ([d] + [])[1..] == [] && bits + [d] == [d];
    } else {
      DivisionAppend(Divide(c, bits[0]), bits[1..], d);
      assert (bits + [d])[1..] == bits[1..] + [d];
    }
  }

  lemma ValueAppend(bits: seq<bool>, d: bool)
    ensures Value(bits + [d]) == 2 * Value(bits) + Bit(d)
  {
    assert (bits + [d])[..|bits|] == bits;
  }

  /** One more bit of message. */
  lemma DividendAppend(c: nat, bits: seq<bool>, d: bool)
    ensures Dividend(c, bits + [d]) == Xor(2 * Dividend(c, bits), Bit(d) * U32_SIZE)
  {
    Pow2At32();
    ValueAppend(bits, d);
    var n := |bits|;
    assert Pow2(n + 1) == 2 * Pow2(n);
    GrownTerms(c, Pow2(n), Pow2(n + 1), Value(bits), Value(bits + [d]), Bit(d), U32_SIZE, 32);
  }

  lemma {:induction false} GrownTerms(c: nat, p: nat, p': nat, v: nat, v': nat, b: nat, h: nat, k: nat)
    requires p' == 2 * p && v' == 2 * v + b && b < 2 && h == Pow2(k)
    ensures Xor(c * p', v' * h) == Xor(2 * Xor(c * p, v * h), b * h)
  {
    Twice(c, p, p');
    AppendTerms(c * p, v, b, h, k);
  }

  lemma DoubleTimes(v: nat, w: nat, h: nat)
    requires w == 2 * v
    ensures w * h == 2 * (v * h)
  {
  }

  lemma {:induction false} AppendTerms(a: nat, v: nat, b: nat, h: nat, k: nat)
    requires b < 2 && h == Pow2(k)
    ensures Xor(2 * a, (2 * v + b) * h) == Xor(2 * Xor(a, v * h), b * h)
  {
    XorLow(2 * v, b);
    XorShifted(2 * v, b, k);
    DoubleTimes(v, 2 * v, h);
    XorDouble(a, v * h);
    XorAssoc(2 * a, 2 * (v * h), b * h);
  }

  lemma TopTerm(b: nat, h: nat, k: nat)
    requires h == Pow2(k) && b < h
    ensures Xor(h, b) == h + b
  {
    XorHigh(1, 0, 0, b, k);
    XorZero(b);
  }

  /** One step of the register, on a quotient so far of product `m` and the register's remainder `r`. */
  lemma {:induction false} StepDivides(g: nat, m: nat, r: nat, d: bool, q: nat) returns (q': nat)
    requires g == Modulus() && m == Mul(g, q) && r < U32_SIZE
    ensures Divide(r, d) < U32_SIZE
    ensures Xor(2 * Xor(m, r), Bit(d) * U32_SIZE) == Xor(Mul(g, q'), Divide(r, d))
  {
    var top, x := FeedBound(r, d);
    DivideIs(r, d, x);
    Pow2At32();
    q' := FedQuotient(m, r, top, Bit(d) * U32_SIZE, x, q, Divide(r, d), g, U32_SIZE, GENERATOR, 32);
  }

  /** ... for any modulus `h + low` of degree `k`. */
  lemma {:induction false} FedQuotient(m: nat, r: nat, top: nat, twice: nat, x: nat, q: nat, r': nat,
                                       g: nat, h: nat, low: nat, k: nat) returns (q': nat)
    requires twice == 2 * top && x == Xor(r, top)
    requires h == Pow2(k) && g == h + low && low < h && x < h && m == Mul(g, q)
    requires r' == if 2 * x >= h then Xor(low, 2 * x - h) else 2 * x
    ensures r' < h && Xor(2 * Xor(m, r), twice) == Xor(Mul(g, q'), r')
  {
    Fed(m, r, top, twice);
    q' := StepQuotient(m, x, q, r', g, h, low, k);
  }

  lemma {:induction false} FeedBound(r: nat, d: bool) returns (top: nat, x: nat)
    requires r < U32_SIZE
    ensures Bit(d) * U32_SIZE == 2 * top && top == if d then 0x8000_0000 else 0
    ensures x == Xor(r, top) < U32_SIZE
  {
    top := if d then 0x8000_0000 else 0;
    x := Xor(r, top);
    Pow2At32();
    XorBound(r, top, 32);
  }

  lemma {:induction false} DivideIs(r: nat, d: bool, x: nat)
    requires x == Xor(r, if d then 0x8000_0000 else 0) && x < U32_SIZE
    ensures Divide(r, d) == if 2 * x >= U32_SIZE then Xor(GENERATOR, 2 * x - U32_SIZE) else 2 * x
  {
    if 2 * x >= U32_SIZE { assert 2 * x % U32_SIZE == 2 * x - U32_SIZE; }
  }

  lemma {:induction false} StepQuotient(m: nat, x: nat, q: nat, r': nat, g: nat, h: nat, low: nat, k: nat)
    returns (q': nat)
    requires h == Pow2(k) && g == h + low && low < h && x < h && m == Mul(g, q)
    requires r' == if 2 * x >= h then Xor(low, 2 * x - h) else 2 * x
    ensures r' < h && Xor(2 * m, 2 * x) == Xor(Mul(g, q'), r')
  {
    if 2 * x >= h {
      q' := 2 * q + 1;
      MulOdd(g, q, q');
      ReducedBy(g, h, low, m, 2 * x - h, k);
      XorBound(low, 2 * x - h, k);
    } else {
      q' := 2 * q;
      MulEven(g, q, q');
    }
  }

  lemma {:induction false} MulEven(g: nat, q: nat, p: nat)
    requires p == 2 * q
    ensures Mul(g, p) == 2 * Mul(g, q)
  {
    MulStep(g, p);
    assert p / 2 == q;
    XorZero(2 * Mul(g, q));
  }

  lemma {:induction false} MulOdd(g: nat, q: nat, p: nat)
    requires p == 2 * q + 1
    ensures Mul(g, p) == Xor(g, 2 * Mul(g, q))
  {
    MulStep(g, p);
    assert p / 2 == q;
  }

  lemma {:induction false} Fed(m: nat, r: nat, top: nat, twice: nat)
    requires twice == 2 * top
    ensures Xor(2 * Xor(m, r), twice) == Xor(2 * m, 2 * Xor(r, top))
  {
    XorDouble(m, r);
    XorDouble(r, top);
    XorAssoc(2 * m, 2 * r, 2 * top);
  }

  lemma ReducedBy(g: nat, h: nat, low: nat, m: nat, y: nat, k: nat)
    requires h == Pow2(k) && low < h && y < h && g == h + low
    ensures Xor(Xor(g, 2 * m), Xor(low, y)) == Xor(2 * m, h + y)
  {
    TopTerm(low, h, k);
    TopTerm(y, h, k);
    XorReduced(g, h, low, 2 * m, y);
  }

  lemma {:induction false} XorReduced(g: nat, h: nat, low: nat, m: nat, y: nat)
    requires g == Xor(h, low)
    ensures Xor(Xor(g, m), Xor(low, y)) == Xor(m, Xor(h, y))
  {
    XorComm(g, m);
    XorAssoc(m, g, Xor(low, y));
    XorSkips(g, h, low, y);
  }

  lemma {:induction false} XorSkips(g: nat, h: nat, low: nat, y: nat)
    requires g == Xor(h, low)
    ensures Xor(g, Xor(low, y)) == Xor(h, y)
  {
    XorAssoc(h, low, Xor(low, y));
    XorAssoc(low, low, y);
    XorZero(low);
    XorZero(y);
  }

  /** Shifting bits through the register divides: it holds the remainder of what has gone in. */
  lemma {:induction false} DivisionDivides(c: nat, bits: seq<bool>) returns (q: nat)
    requires c < U32_SIZE
    ensures Division(c, bits) < U32_SIZE
    ensures DividesOut(Dividend(c, bits), Modulus(), q, Division(c, bits))
    decreases |bits|
  {
    if bits == [] {
      q := 0;
      XorZero(c);
    } else {
      var k := |bits| - 1;
      var init, d := bits[..k], bits[k];
      assert bits == init + [d];
      var p := DivisionDivides(c, init);
      DivisionAppend(c, init, d);
      DividendAppend(c, init, d);
      q := StepDivides(Modulus(), Mul(Modulus(), p), Division(c, init), d, p);
    }
  }

  // ---- the check sequence ----

  function WordLength(): nat { 32 }

  /** The bits of a word in the opposite order. */
  function Reversed(w: nat): nat { Reflect(w, WordLength()) }

  /** The constant of the code is the standard's generator with its bits reversed. */
  lemma PolyReversed()
    ensures Reversed(POLY) == GENERATOR
  {
    PolyReflected(0);
  }

  /** A number is the remainder of the message, started at all ones, modulo the generator exactly if it is
      the complement of the check sequence with its bits reversed. */
  lemma Crc32IsRemainder(data: seq<u8>, r: nat)
    ensures IsRemainder(Dividend(ONES, Stream(data)), Modulus(), 32, r) <==> r == Reversed(Not32(Crc32Of(data)))
  {
    var bits := Stream(data);
    Crc32IsDivision(data, WordLength());
    var q := DivisionDivides(ONES, bits);
    Pow2At32();
    assert Pow2(33) == 2 * Pow2(32);
    assert IsRemainder(Dividend(ONES, bits), Modulus(), 32, Division(ONES, bits));
    if IsRemainder(Dividend(ONES, bits), Modulus(), 32, r) {
      RemainderUnique(Dividend(ONES, bits), Modulus(), 32, r, Division(ONES, bits));
    }
  }
}
