/** CRC-32 of section 3.2.9 of IEEE 802.3.

    The reference is the one-bit shift register; the table method of the source is proved equal to it,
    the error detection is proved on it, and it is shown to be the division of the standard with its bits
    reversed. */
module Crc {
  import opened Bytes
  import opened Words

  // ---- exclusive or ----

  function Xor(a: nat, b: nat): nat
    decreases a + b
  {
    if a == 0 && b == 0 then 0 else (a + b) % 2 + 2 * Xor(a / 2, b / 2)
  }

  lemma {:induction false} XorParts(a: nat, b: nat)
    ensures Xor(a, b) % 2 == (a + b) % 2 && Xor(a, b) / 2 == Xor(a / 2, b / 2)
  {
    var t := Xor(a / 2, b / 2);
    assert Xor(a, b) == (a + b) % 2 + 2 * t;
    Halve((a + b) % 2, t);
  }

  lemma Halve(d: nat, t: nat)
    requires d < 2
    ensures (d + 2 * t) % 2 == d && (d + 2 * t) / 2 == t
  {
  }

  /** Numbers with the same low bit and the same rest are equal. */
  lemma FromParts(x: nat, y: nat)
    requires x % 2 == y % 2 && x / 2 == y / 2
    ensures x == y
  {
  }

  lemma {:induction false} XorZero(a: nat)
    ensures Xor(a, 0) == a && Xor(0, a) == a && Xor(a, a) == 0
    decreases a
  {
    if a > 0 { XorZero(a / 2); }
  }

  lemma {:induction false} XorComm(a: nat, b: nat)
    ensures Xor(a, b) == Xor(b, a)
    decreases a + b
  {
    if a + b > 0 { XorComm(a / 2, b / 2); }
  }

  lemma {:induction false} XorAssoc(a: nat, b: nat, c: nat)
    ensures Xor(Xor(a, b), c) == Xor(a, Xor(b, c))
    decreases a + b + c
  {
    if a + b + c > 0 {
      XorAssoc(a / 2, b / 2, c / 2);
      var x, y := Xor(a, b), Xor(b, c);
      XorParts(a, b);
      XorParts(b, c);
      XorParts(x, c);
      XorParts(a, y);
      XorParity(a, b, c, x, y);
      FromParts(Xor(x, c), Xor(a, y));
    }
  }

  lemma XorParity(a: nat, b: nat, c: nat, x: nat, y: nat)
    requires x % 2 == (a + b) % 2 && y % 2 == (b + c) % 2
    ensures (x + c) % 2 == (a + y) % 2
  {
  }

  lemma XorCancel(a: nat, b: nat, d: nat)
    requires Xor(a, d) == Xor(b, d)
    ensures a == b
  {
    XorAssoc(a, d, d);
    XorAssoc(b, d, d);
    XorZero(d);
    XorZero(a);
    XorZero(b);
  }

  lemma {:induction false} XorBound(a: nat, b: nat, k: nat)
    requires a < Pow2(k) && b < Pow2(k)
    ensures Xor(a, b) < Pow2(k)
    decreases k
  {
    if k > 0 { XorBound(a / 2, b / 2, k - 1); }
  }

  /** A top bit present on one side only stays. */
  lemma {:induction false} XorTop(a: nat, b: nat, k: nat)
    requires Pow2(k) <= a && b < Pow2(k)
    ensures Xor(a, b) >= Pow2(k)
    decreases k
  {
    if k > 0 { XorTop(a / 2, b / 2, k - 1); } else { XorZero(a); }
  }

  /** Complementing `k` bits. */
  lemma {:induction false} XorOnes(a: nat, k: nat)
    requires a < Pow2(k)
    ensures Xor(a, Pow2(k) - 1) == Pow2(k) - 1 - a
    decreases k
  {
    if k > 0 {
      XorOnes(a / 2, k - 1);
      var h := Pow2(k - 1);
      Gap(a, 2 * h - 1, h, a / 2, a % 2);
      OnesStep(a, 2 * h - 1, 2 * h - 1 - a);
    }
  }

  lemma OnesStep(a: nat, b: nat, g: nat)
    requires (a + b) % 2 == g % 2 && Xor(a / 2, b / 2) == g / 2
    ensures Xor(a, b) == g
  {
    XorParts(a, b);
    FromParts(Xor(a, b), g);
  }

  /** Complementing a number bit by bit. */
  lemma Gap(a: nat, b: nat, h: nat, q: nat, r: nat)
    requires b == 2 * h - 1 && a <= b && a == 2 * q + r && r < 2
    ensures (a + b) % 2 == (b - a) % 2 && (b - a) / 2 == h - 1 - q && b / 2 == h - 1
  {
    Halve(1 - r, h - 1 - q);
    Halve(1, h - 1);
    if r == 0 { Halve(1, q + h - 1); } else { Halve(0, q + h); }
  }

  // ---- the shift register ----

  const POLY: u32 := 0xEDB8_8320
  const ONES: u32 := 0xFFFF_FFFF

  lemma Word32(a: nat)
    ensures a < U32_SIZE <==> a < Pow2(32)
    ensures Pow2(32) == 2 * Pow2(31) && Pow2(31) == 0x8000_0000
  {
    Pow2At32();
    assert Pow2(32) == 2 * Pow2(31);
  }

  function Xor32(a: u32, b: u32): u32 {
    Word32(a);
    XorBound(a, b, 32);
    Xor(a, b)
  }

  function Not32(a: u32): u32 { ONES - a }

  /** One shift of the register with no input. */
  function Shift(c: u32): u32 {
    if c % 2 == 1 then Xor32(POLY, c / 2) else c / 2
  }

  function Shifts(c: u32, k: nat): u32
    decreases k, c
  {
    if k == 0 then c else Shifts(Shift(c), k - 1)
  }

  function Bit(d: bool): u32 { if d then 1 else 0 }

  /** Feeding bits one at a time, each added to the low end before a shift. */
  function Serial(c: u32, bits: seq<bool>): u32
    decreases bits
  {
    if bits == [] then c else Serial(Shift(Xor32(c, Bit(bits[0]))), bits[1..])
  }

  /** The low `n` bits of `w`, low end first. */
  function WordBits(w: nat, n: nat): (s: seq<bool>)
    ensures |s| == n
    decreases n, w
  {
    if n == 0 then [] else [w % 2 == 1] + WordBits(w / 2, n - 1)
  }

  /** The bits of a message in transmission order: each byte least significant bit first. */
  function Stream(data: seq<u8>): (s: seq<bool>)
    ensures |s| == 8 * |data|
    decreases data
  {
    if data == [] then [] else WordBits(data[0], 8) + Stream(data[1..])
  }

  function Register(data: seq<u8>): u32 { Serial(ONES, Stream(data)) }

  /** The frame check sequence of a message. */
  function Crc32Of(data: seq<u8>): u32 { Not32(Register(data)) }

  // ---- the register is linear and its steps are injective ----

  lemma ShiftXor(c: u32, w: u32)
    ensures Shift(Xor32(c, w)) == Xor(Shift(c), Shift(w))
  {
    var v, x, y := Xor32(c, w), c / 2, w / 2;
    XorParts(c, w);
    OddSum(c, w);
    ShiftCases(c, w, v, x, y);
  }

  lemma OddSum(c: nat, w: nat)
    ensures (c + w) % 2 == 1 <==> (c % 2 == 1) != (w % 2 == 1)
  {
  }

  lemma ShiftCases(c: u32, w: u32, v: u32, x: u32, y: u32)
    requires x == c / 2 && y == w / 2 && v / 2 == Xor(x, y) && (v % 2 == 1 <==> (c % 2 == 1) != (w % 2 == 1))
    ensures Shift(v) == Xor(Shift(c), Shift(w))
  {
    XorBoth(POLY, x, y);
    XorEither(POLY, x, y);
  }

  lemma XorEither(p: nat, x: nat, y: nat)
    ensures Xor(Xor(p, x), y) == Xor(p, Xor(x, y)) && Xor(x, Xor(p, y)) == Xor(p, Xor(x, y))
  {
    XorAssoc(p, x, y);
    XorComm(x, p);
    XorAssoc(x, p, y);
  }

  lemma XorBoth(p: nat, x: nat, y: nat)
    ensures Xor(Xor(p, x), Xor(p, y)) == Xor(x, y)
  {
    XorComm(p, x);
    XorAssoc(x, p, Xor(p, y));
    XorAssoc(p, p, y);
    XorZero(p);
    XorZero(y);
  }

  lemma ShiftInjective(a: u32, b: u32)
    requires Shift(a) == Shift(b)
    ensures a == b
  {
    Word32(a);
    XorTop(POLY, a / 2, 31);
    XorTop(POLY, b / 2, 31);
    if a % 2 == 1 {
      XorComm(POLY, a / 2);
      XorComm(POLY, b / 2);
      XorCancel(a / 2, b / 2, POLY);
    }
  }

  lemma {:induction false} ShiftsInjective(a: u32, b: u32, k: nat)
    requires Shifts(a, k) == Shifts(b, k)
    ensures a == b
    decreases k
  {
    if k > 0 {
      ShiftsInjective(Shift(a), Shift(b), k - 1);
      ShiftInjective(a, b);
    }
  }

  /** Whatever follows, different registers stay different. */
  lemma {:induction false} SerialInjective(a: u32, b: u32, bits: seq<bool>)
    requires Serial(a, bits) == Serial(b, bits)
    ensures a == b
    decreases bits
  {
    if bits != [] {
      var d := Bit(bits[0]);
      SerialInjective(Shift(Xor32(a, d)), Shift(Xor32(b, d)), bits[1..]);
      ShiftInjective(Xor32(a, d), Xor32(b, d));
      XorCancel(a, b, d);
    }
  }

  lemma {:induction false} SerialAppend(c: u32, a: seq<bool>, b: seq<bool>)
    ensures Serial(c, a + b) == Serial(Serial(c, a), b)
    decreases a
  {
    if a == [] {
      assert a + b == b;
    } else {
      assert (a + b)[1..] == a[1..] + b;
      SerialAppend(Shift(Xor32(c, Bit(a[0]))), a[1..], b);
    }
  }

  // ---- feeding a word at a time ----

  /** `w >> n`. */
  function Rest(w: nat, n: nat): nat
    decreases n, w
  {
    if n == 0 then w else Rest(w / 2, n - 1)
  }

  /** A shift consumes the low bit of a word added to the register; the rest stays added. */
  lemma FeedOne(c: u32, w: u32)
    ensures Shift(Xor32(c, w)) == Xor32(Shift(Xor32(c, Bit(w % 2 == 1))), w / 2)
  {
    var d := Bit(w % 2 == 1);
    var v := w - d;
    XorLow(v, d);
    XorComm(v, d);
    XorAssoc(c, d, v);
    ShiftXor(Xor32(c, d), v);
  }

  lemma XorLow(v: nat, d: nat)
    requires v % 2 == 0 && d < 2
    ensures Xor(v, d) == v + d
  {
    XorZero(v / 2);
  }

  /** Feeding `n` bits of a word serially, or adding the whole word and shifting `n` times. */
  lemma {:induction false} FeedWord(c: u32, w: u32, n: nat)
    ensures Xor(Serial(c, WordBits(w, n)), Rest(w, n)) == Shifts(Xor32(c, w), n)
    decreases n
  {
    if n > 0 {
      FeedOne(c, w);
      FeedWord(Shift(Xor32(c, Bit(w % 2 == 1))), w / 2, n - 1);
      assert WordBits(w, n)[1..] == WordBits(w / 2, n - 1);
    }
  }

  lemma {:induction false} RestSmall(w: nat, n: nat)
    requires w < Pow2(n)
    ensures Rest(w, n) == 0
    decreases n
  {
    if n > 0 { RestSmall(w / 2, n - 1); }
  }

  lemma {:induction false} RestXor(a: nat, b: nat, n: nat)
    ensures Rest(Xor(a, b), n) == Xor(Rest(a, n), Rest(b, n))
    decreases n
  {
    if n > 0 {
      XorParts(a, b);
      RestXor(a / 2, b / 2, n - 1);
    }
  }

  /** A word that fits in the bits fed is added whole. */
  lemma FeedAll(c: u32, w: u32, n: nat)
    requires w < Pow2(n)
    ensures Serial(c, WordBits(w, n)) == Shifts(Xor32(c, w), n)
  {
    FeedWord(c, w, n);
    RestSmall(w, n);
    XorZero(Serial(c, WordBits(w, n)));
  }

  lemma LowByte(x: nat)
    ensures WordBits(x, 8) == WordBits(x % 256, 8) && Rest(x, 8) == x / 256
  {
    LowBits(x, 8);
    RestIs(x, 8);
    assert Pow2(8) == 256;
  }

  lemma {:induction false} LowBits(x: nat, n: nat)
    ensures WordBits(x, n) == WordBits(x % Pow2(n), n)
    decreases n
  {
    if n > 0 {
      var y := x % Pow2(n);
      HalfResidue(x, Pow2(n - 1), Pow2(n), y);
      LowBits(x / 2, n - 1);
      LowBits(y / 2, n - 1);
    }
  }

  lemma HalfResidue(x: nat, p: nat, w: nat, y: nat)
    requires p > 0 && w == 2 * p && y == x % w
    ensures y % 2 == x % 2 && (x / 2) % p == (y / 2) % p
  {
    var q := x / w;
    var t := p * q;
    assert x == 2 * t + y by { assert x == w * q + y && w * q == 2 * t; }
    ModAddMul(y / 2, p, q);
  }

  lemma {:induction false} RestIs(x: nat, n: nat)
    ensures Rest(x, n) == x / Pow2(n)
    decreases n
  {
    if n > 0 {
      RestIs(x / 2, n - 1);
      var p := Pow2(n - 1);
      var q := x / 2 / p;
      assert x / 2 == p * q + x / 2 % p;
      ModUnique(x, 2 * p, q, 2 * (x / 2 % p) + x % 2);
    }
  }

  /** One table lookup feeds one byte. */
  lemma FeedByte(c: u32, b: u8)
    ensures Serial(c, WordBits(b, 8)) == Xor(Shifts(Xor32(c, b) % 256, 8), c / 256)
  {
    assert Pow2(8) == 256;
    var x := Xor32(c, b);
    FeedAll(c, b, 8);
    FeedWord(0, x, 8);
    FeedAll(0, x % 256, 8);
    LowByte(x);
    XorZero(x);
    XorZero(x % 256);
    RestXor(c, b, 8);
    RestSmall(b, 8);
    LowByte(c);
    XorZero(c / 256);
  }

  // ---- error detection ----

  /** The number whose low bits these are. */
  function WordOf(bits: seq<bool>): nat
    decreases bits
  {
    if bits == [] then 0 else Bit(bits[0]) + 2 * WordOf(bits[1..])
  }

  lemma {:induction false} WordOfBits(bits: seq<bool>)
    ensures WordOf(bits) < Pow2(|bits|) && WordBits(WordOf(bits), |bits|) == bits
    decreases bits
  {
    if bits != [] {
      WordOfBits(bits[1..]);
      Halve(Bit(bits[0]), WordOf(bits[1..]));
    }
  }

  /** Up to 32 bits fed to one register: different bits give different registers. */
  lemma BurstChanges(c: u32, d: seq<bool>, e: seq<bool>)
    requires |d| == |e| <= 32 && Serial(c, d) == Serial(c, e)
    ensures d == e
  {
    var v, w := WordOf(d), WordOf(e);
    WordOfBits(d);
    WordOfBits(e);
    Pow2Divides(|d|, 32);
    Word32(v);
    FeedAll(c, v, |d|);
    FeedAll(c, w, |e|);
    ShiftsInjective(Xor32(c, v), Xor32(c, w), |d|);
    XorComm(c, v);
    XorComm(c, w);
    XorCancel(v, w, c);
  }

  /** The messages differ, and all the bits in which they do lie within 32 consecutive ones. */
  ghost predicate Burst(a: seq<u8>, b: seq<u8>, from: nat) {
    && |a| == |b| && a != b
    && forall i :: 0 <= i < 8 * |a| && !(from <= i < from + 32) ==> Stream(a)[i] == Stream(b)[i]
  }

  lemma {:induction false} StreamInjective(a: seq<u8>, b: seq<u8>)
    requires Stream(a) == Stream(b)
    ensures a == b
    decreases a
  {
    if a != [] {
      assert |a| == |b|;
      StreamParts(a);
      StreamParts(b);
      WordBitsInjective(a[0], b[0], 8);
      StreamInjective(a[1..], b[1..]);
      assert a == [a[0]] + a[1..] && b == [b[0]] + b[1..];
    }
  }

  lemma StreamParts(a: seq<u8>)
    requires a != []
    ensures Stream(a)[..8] == WordBits(a[0], 8) && Stream(a)[8..] == Stream(a[1..])
  {
  }

  lemma {:induction false} WordBitsInjective(v: nat, w: nat, n: nat)
    requires v < Pow2(n) && w < Pow2(n) && WordBits(v, n) == WordBits(w, n)
    ensures v == w
    decreases n
  {
    if n > 0 {
      assert WordBits(v, n)[0] == WordBits(w, n)[0];
      assert WordBits(v, n)[1..] == WordBits(w, n)[1..];
      WordBitsInjective(v / 2, w / 2, n - 1);
    } else {
      assert v == 0 && w == 0;
    }
  }

  /** Any change confined to 32 consecutive bits changes the register. */
  lemma BurstDetected(a: seq<u8>, b: seq<u8>, from: nat)
    requires Burst(a, b, from)
    ensures Register(a) != Register(b)
  {
    if Register(a) == Register(b) {
      var s, t := Stream(a), Stream(b);
      BurstOfBits(ONES, s, t, Min(from, |s|), Min(from + 32, |s|));
      StreamInjective(a, b);
    }
  }

  lemma BurstOfBits(c: u32, s: seq<bool>, t: seq<bool>, lo: nat, hi: nat)
    requires |s| == |t| && lo <= hi <= |s| && hi - lo <= 32
    requires forall i :: 0 <= i < |s| && !(lo <= i < hi) ==> s[i] == t[i]
    requires Serial(c, s) == Serial(c, t)
    ensures s == t
  {
    OutsideEqual(s, t, lo, hi);
    Split(c, s, lo, hi);
    Split(c, t, lo, hi);
    var c' := Serial(c, s[..lo]);
    SerialInjective(Serial(c', s[lo..hi]), Serial(c', t[lo..hi]), s[hi..]);
    BurstChanges(c', s[lo..hi], t[lo..hi]);
    ThreeParts(s, lo, hi);
    ThreeParts(t, lo, hi);
  }

  lemma OutsideEqual(s: seq<bool>, t: seq<bool>, lo: nat, hi: nat)
    requires |s| == |t| && lo <= hi <= |s|
    requires forall i :: 0 <= i < |s| && !(lo <= i < hi) ==> s[i] == t[i]
    ensures s[..lo] == t[..lo] && s[hi..] == t[hi..]
  {
  }

  lemma ThreeParts(s: seq<bool>, lo: nat, hi: nat)
    requires lo <= hi <= |s|
    ensures s == s[..lo] + (s[lo..hi] + s[hi..])
  {
  }

  lemma Split(c: u32, s: seq<bool>, lo: nat, hi: nat)
    requires lo <= hi <= |s|
    ensures Serial(c, s) == Serial(Serial(Serial(c, s[..lo]), s[lo..hi]), s[hi..])
  {
    ThreeParts(s, lo, hi);
    SerialAppend(c, s[..lo], s[lo..hi] + s[hi..]);
    SerialAppend(Serial(c, s[..lo]), s[lo..hi], s[hi..]);
  }

  // ---- the trailer ----

  /** `to_le_bytes` of a 32-bit word. */
  function Le32(w: u32): (b: seq<u8>)
    ensures |b| == 4
  {
    Le(w, 4)
  }

  lemma {:induction false} StreamAppend(a: seq<u8>, b: seq<u8>)
    ensures Stream(a + b) == Stream(a) + Stream(b)
    decreases a
  {
    if a == [] {
      assert a + b == b;
    } else {
      assert (a + b)[1..] == a[1..] + b;
      StreamAppend(a[1..], b);
    }
  }

  lemma {:induction false} WordBitsSplit(w: nat, m: nat, n: nat)
    ensures WordBits(w, m + n) == WordBits(w, m) + WordBits(Rest(w, m), n)
    decreases m
  {
    if m > 0 { WordBitsSplit(w / 2, m - 1, n); }
  }

  lemma WordBytes(w: nat, n: nat)
    ensures WordBits(w, n + 8) == WordBits(w % 256, 8) + WordBits(w / 256, n)
  {
    WordBitsSplit(w, 8, n);
    LowByte(w);
  }

  /** A little-endian image transmits the word low end first. */
  lemma {:induction false} LeStream(w: nat, k: nat)
    ensures Stream(Le(w, k)) == WordBits(w, 8 * k)
    decreases k
  {
    if k > 0 {
      LeStream(w / 256, k - 1);
      WordBytes(w, 8 * (k - 1));
      assert Le(w, k)[1..] == Le(w / 256, k - 1);
    }
  }

  /** What the register holds after any message followed by its own check sequence. */
  function Residue(): u32 { Shifts(ONES, 32) }

  /** A trailer is the right one exactly when the register over message and trailer is the residue. */
  lemma TrailerResidue(data: seq<u8>, w: u32)
    ensures w == Crc32Of(data) <==> Register(data + Le32(w)) == Residue()
  {
    var c := Register(data);
    StreamAppend(data, Le32(w));
    SerialAppend(ONES, Stream(data), Stream(Le32(w)));
    LeStream(w, 4);
    Word32(w);
    FeedAll(c, w, 32);
    Complement(c);
    if Shifts(Xor32(c, w), 32) == Residue() {
      ShiftsInjective(Xor32(c, w), ONES, 32);
      XorComm(c, w);
      XorComm(c, Not32(c));
      XorCancel(w, Not32(c), c);
    }
  }

  lemma Complement(c: u32)
    ensures Xor(c, Not32(c)) == ONES
  {
    Pow2At32();
    XorOnes(c, 32);
    XorAssoc(c, c, ONES);
    XorZero(c);
    XorZero(ONES);
  }

  /** A message and trailer that check out, changed within 32 consecutive bits, no longer do. */
  lemma CheckedBurst(data: seq<u8>, data': seq<u8>, w: u32, w': u32, from: nat)
    requires w == Crc32Of(data) && Burst(data + Le32(w), data' + Le32(w'), from)
    ensures w' != Crc32Of(data')
  {
    TrailerResidue(data, w);
    TrailerResidue(data', w');
    BurstDetected(data + Le32(w), data' + Le32(w'), from);
  }

  // ---- the division as the standard writes it, highest power first ----

  const GENERATOR: u32 := 0x04C1_1DB7

  /** The low bit of `c` moved up to place `k`. */
  function Raise(c: nat, k: nat): nat { if c % 2 == 1 then Pow2(k) else 0 }

  /** The low `n` bits of `c` in the opposite order. */
  function Reflect(c: nat, n: nat): nat
    decreases n, c
  {
    if n == 0 then 0 else Raise(c, n - 1) + Reflect(c / 2, n - 1)
  }

  lemma ReflectStep(c: nat, k: nat)
    ensures Reflect(c, k + 1) == Raise(c, k) + Reflect(c / 2, k)
  {
  }

  lemma {:induction false} ReflectBound(c: nat, n: nat)
    ensures Reflect(c, n) < Pow2(n)
    decreases n
  {
    if n > 0 { ReflectBound(c / 2, n - 1); }
  }

  /** A number with its top bit clear reflects to an even number. */
  lemma {:induction false} ReflectDown(x: nat, n: nat)
    requires x < Pow2(n)
    ensures Reflect(x, n + 1) == 2 * Reflect(x, n)
    decreases n
  {
    if n > 0 { ReflectDown(x / 2, n - 1); }
  }

  /** Exclusive or of numbers of `k` low bits with one bit on top. */
  lemma {:induction false} XorHigh(a: nat, r: nat, b: nat, s: nat, k: nat)
    requires r < Pow2(k) && s < Pow2(k)
    ensures Xor(Raise(a, k) + r, Raise(b, k) + s) == Raise(a + b, k) + Xor(r, s)
  {
    XorTall(a, r, Raise(a, k) + r, b, s, Raise(b, k) + s, k);
  }

  lemma {:induction false} XorTall(a: nat, r: nat, x: nat, b: nat, s: nat, y: nat, k: nat)
    requires r < Pow2(k) && s < Pow2(k) && x == Raise(a, k) + r && y == Raise(b, k) + s
    ensures Xor(x, y) == Raise(a + b, k) + Xor(r, s)
    decreases k
  {
    if k == 0 {
      OddSum(a, b);
      XorZero(0);
      XorZero(1);
    } else {
      var m, u, v := Raise(a + b, k - 1), Raise(a, k - 1) + r / 2, Raise(b, k - 1) + s / 2;
      XorTall(a, r / 2, u, b, s / 2, v, k - 1);
      RaiseHalf(a, r, k);
      RaiseHalf(b, s, k);
      RaiseTwice(a + b, k, m);
      XorHighStep(x, y, r, s, u, v, m);
    }
  }

  lemma RaiseTwice(a: nat, k: nat, m: nat)
    requires k > 0 && m == Raise(a, k - 1)
    ensures Raise(a, k) == 2 * m
  {
  }

  lemma RaiseHalf(a: nat, r: nat, k: nat)
    requires k > 0
    ensures (Raise(a, k) + r) % 2 == r % 2 && (Raise(a, k) + r) / 2 == Raise(a, k - 1) + r / 2
  {
  }

  lemma XorHighStep(x: nat, y: nat, r: nat, s: nat, u: nat, v: nat, m: nat)
    requires x % 2 == r % 2 && y % 2 == s % 2 && u == x / 2 && v == y / 2
    requires Xor(u, v) == m + Xor(r / 2, s / 2)
    ensures Xor(x, y) == 2 * m + Xor(r, s)
  {
    XorParts(x, y);
    XorParts(r, s);
    SumParity(x, y, r, s);
    Combine(Xor(x, y), Xor(r, s), m);
  }

  lemma Combine(u: nat, v: nat, m: nat)
    requires u % 2 == v % 2 && u / 2 == m + v / 2
    ensures u == 2 * m + v
  {
  }

  lemma SumParity(a: nat, b: nat, r: nat, s: nat)
    requires a % 2 == r % 2 && b % 2 == s % 2
    ensures (a + b) % 2 == (r + s) % 2
  {
    OddSum(a, b);
    OddSum(r, s);
  }

  lemma {:induction false} ReflectXor(a: nat, b: nat, n: nat)
    ensures Reflect(Xor(a, b), n) == Xor(Reflect(a, n), Reflect(b, n))
    decreases n
  {
    if n == 0 {
      XorZero(0);
    } else {
      var k, z := n - 1, Xor(a, b);
      ReflectXor(a / 2, b / 2, k);
      XorParts(a, b);
      ReflectBound(a / 2, k);
      ReflectBound(b / 2, k);
      ReflectXorStep(a, b, z, Reflect(a / 2, k), Reflect(b / 2, k), k);
      ReflectStep(a, k);
      ReflectStep(b, k);
      ReflectStep(z, k);
    }
  }

  lemma ReflectXorStep(a: nat, b: nat, z: nat, x: nat, y: nat, k: nat)
    requires z % 2 == (a + b) % 2 && x < Pow2(k) && y < Pow2(k)
    ensures Raise(z, k) + Xor(x, y) == Xor(Raise(a, k) + x, Raise(b, k) + y)
  {
    XorHigh(a, x, b, y, k);
    RaiseSame(z, a + b, k);
  }

  lemma RaiseSame(a: nat, b: nat, k: nat)
    requires a % 2 == b % 2
    ensures Raise(a, k) == Raise(b, k)
  {
  }

  /** One step of division by the generator, most significant bit first. */
  function Divide(c: nat, d: bool): nat {
    var x := Xor(c, if d then 0x8000_0000 else 0);
    if x >= 0x8000_0000 then Xor(GENERATOR, 2 * x % U32_SIZE) else 2 * x
  }

  function Division(c: nat, bits: seq<bool>): nat
    decreases bits
  {
    if bits == [] then c else Division(Divide(c, bits[0]), bits[1..])
  }

  lemma {:induction false} ReflectZero(n: nat)
    ensures Reflect(0, n) == 0
    decreases n
  {
    if n > 0 { ReflectZero(n - 1); }
  }

  lemma {:induction false} ReflectOnes(n: nat)
    ensures Reflect(Pow2(n) - 1, n) == Pow2(n) - 1
    decreases n
  {
    if n > 0 {
      ReflectOnes(n - 1);
      assert (Pow2(n) - 1) / 2 == Pow2(n - 1) - 1;
    }
  }

  function Place(d: nat, h: nat): nat { if d == 1 then h else 0 }

  /** One more bit at the low end is one more at the high end. */
  lemma GrowBit(c: nat, d: nat, n: nat, h: nat, r: nat, c': nat, r': nat)
    requires d < 2 && h == Pow2(n) && r == Reflect(c, n) && c' == 2 * c + d && r' == Place(d, h) + r
    ensures Pow2(n + 1) == 2 * h && Reflect(c', n + 1) == r'
  {
    assert c' / 2 == c && c' % 2 == d;
    ReflectStep(c', n);
  }

  lemma Grow(c: nat, b3: nat, b2: nat, b1: nat, b0: nat, n: nat, h: nat, r: nat)
    requires b3 < 2 && b2 < 2 && b1 < 2 && b0 < 2
    requires h == Pow2(n) && r == Reflect(c, n)
    ensures Pow2(n + 4) == 16 * h
    ensures Reflect(2 * (2 * (2 * (2 * c + b3) + b2) + b1) + b0, n + 4)
            == Place(b0, 8 * h) + Place(b1, 4 * h) + Place(b2, 2 * h) + Place(b3, h) + r
  {
    var c1, r1 := 2 * c + b3, Place(b3, h) + r;
    var c2, r2 := 2 * c1 + b2, Place(b2, 2 * h) + r1;
    var c3, r3 := 2 * c2 + b1, Place(b1, 4 * h) + r2;
    GrowBit(c, b3, n, h, r, c1, r1);
    GrowBit(c1, b2, n + 1, 2 * h, r1, c2, r2);
    GrowBit(c2, b1, n + 2, 4 * h, r2, c3, r3);
    GrowBit(c3, b0, n + 3, 8 * h, r3, 2 * c3 + b0, Place(b0, 8 * h) + r3);
  }

  lemma PolyHigh(n: nat)
    requires n == 0
    ensures Pow2(n + 16) == 0x1_0000 && Reflect(0xEDB8, n + 16) == 0x1DB7
  {
    Grow(0, 1, 1, 1, 0, n, 1, 0);
    Grow(0xE, 1, 1, 0, 1, n + 4, 0x10, 0x7);
    Grow(0xED, 1, 0, 1, 1, n + 8, 0x100, 0xB7);
    Grow(0xEDB, 1, 0, 0, 0, n + 12, 0x1000, 0xDB7);
  }

  /** The constant of the code is the standard's generator, reflected. */
  lemma PolyReflected(n: nat)
    requires n == 0
    ensures Reflect(POLY, n + 32) == GENERATOR
  {
    PolyHigh(n);
    Grow(0xEDB8, 1, 0, 0, 0, n + 16, 0x1_0000, 0x1DB7);
    Grow(0xEDB88, 0, 0, 1, 1, n + 20, 0x10_0000, 0x1_1DB7);
    Grow(0xEDB883, 0, 0, 1, 0, n + 24, 0x100_0000, 0xC1_1DB7);
    Grow(0xEDB8832, 0, 0, 0, 0, n + 28, 0x1000_0000, 0x4C1_1DB7);
  }

  lemma OnesReflected(n: nat)
    requires n == 32
    ensures Reflect(ONES, n) == ONES
  {
    Pow2At32();
    ReflectOnes(n);
  }

  lemma BitReflected(d: bool, n: nat)
    requires n == 32
    ensures Reflect(Bit(d), n) == if d then 0x8000_0000 else 0
  {
    Pow2At32();
    ReflectZero(n);
    ReflectOne(n);
  }

  lemma ReflectOne(n: nat)
    requires n > 0
    ensures Reflect(1, n) == Pow2(n - 1)
  {
    ReflectZero(n - 1);
  }

  lemma ShiftReflected(c: u32, n: nat)
    requires n == 32
    ensures var x := Reflect(c, n);
            Reflect(Shift(c), n) == if x >= 0x8000_0000 then Xor(GENERATOR, 2 * x % U32_SIZE) else 2 * x
  {
    var r := ReflectHalves(c, n);
    TopBit(c, r, Reflect(c, n));
    if c % 2 == 1 {
      PolyReflected(n - 32);
      ShiftOdd(c / 2, n, 2 * r, POLY, GENERATOR, Shift(c));
    }
  }

  lemma ShiftOdd(half: nat, n: nat, y: nat, p: nat, g: nat, v: nat)
    requires Reflect(p, n) == g && Reflect(half, n) == y && v == Xor(p, half)
    ensures Reflect(v, n) == Xor(g, y)
  {
    ReflectXor(p, half, n);
  }

  lemma ReflectHalves(c: u32, n: nat) returns (r: nat)
    requires n == 32
    ensures r < 0x8000_0000 && Reflect(c / 2, n) == 2 * r
    ensures Reflect(c, n) == r + if c % 2 == 1 then 0x8000_0000 else 0
  {
    Word32(c);
    r := Reflect(c / 2, n - 1);
    ReflectBound(c / 2, n - 1);
    ReflectDown(c / 2, n - 1);
    ReflectStep(c, n - 1);
  }

  lemma TopBit(c: u32, r: nat, x: nat)
    requires r < 0x8000_0000 && x == r + if c % 2 == 1 then 0x8000_0000 else 0
    ensures x >= 0x8000_0000 <==> c % 2 == 1
    ensures x >= 0x8000_0000 ==> 2 * x % U32_SIZE == 2 * r
    ensures x < 0x8000_0000 ==> x == r
  {
  }

  /** The reflected register is the division by x^32 + x^26 + ... + 1 read the other way round. */
  lemma {:induction false} SerialReflected(c: u32, bits: seq<bool>, n: nat)
    requires n == 32
    ensures Reflect(Serial(c, bits), n) == Division(Reflect(c, n), bits)
    decreases bits
  {
    if bits != [] {
      var d := Bit(bits[0]);
      var c' := Shift(Xor32(c, d));
      FeedReflected(c, bits[0], n);
      SerialReflected(c', bits[1..], n);
    }
  }

  lemma FeedReflected(c: u32, d: bool, n: nat)
    requires n == 32
    ensures Reflect(Shift(Xor32(c, Bit(d))), n) == Divide(Reflect(c, n), d)
  {
    BitReflected(d, n);
    ReflectXor(c, Bit(d), n);
    ShiftReflected(Xor32(c, Bit(d)), n);
  }

  /** The check sequence is the complemented remainder of the division started at all ones. */
  lemma Crc32IsDivision(data: seq<u8>, n: nat)
    requires n == 32
    ensures Reflect(Not32(Crc32Of(data)), n) == Division(ONES, Stream(data))
  {
    OnesReflected(n);
    var r := Register(data);
    assert Not32(Crc32Of(data)) == r;
    SerialReflected(ONES, Stream(data), n);
  }

  // ---- the code ----

  ghost predicate IsTable(table: seq<u32>) {
    table == Entries()
  }

  /** Eight shifts of every byte. */
  function Entries(): seq<u32> { seq(256, i requires 0 <= i < 256 => Shifts(i, 8)) }

  lemma {:induction false} ShiftsOnce(c: u32, k: nat)
    ensures Shifts(c, k + 1) == Shift(Shifts(c, k))
    decreases k
  {
    if k > 0 { ShiftsOnce(Shift(c), k - 1); }
  }

  method BuildTable() returns (table: array<u32>)
    ensures fresh(table) && IsTable(table[..])
  {
    table := new u32[256](_ => 0);
    for i := 0 to 256
      invariant table[..i] == Entries()[..i]
    {
      var c := TableEntry(i);
      table[i] := c;
    }
  }

  /** The inner loop of `build_table`. */
  method TableEntry(i: u8) returns (c: u32)
    ensures c == Shifts(i, 8)
  {
    c := i;
    for k := 0 to 8
      invariant c == Shifts(i, k)
    {
      ShiftsOnce(i, k);
      c := if c % 2 != 0 then Xor32(POLY, c / 2) else c / 2;
    }
  }

  method Crc32(data: seq<u8>) returns (r: u32)
    ensures r == Crc32Of(data)
  {
    var table := BuildTable();
    var c := ONES;
    for i := 0 to |data|
      invariant IsTable(table[..])
      invariant Serial(c, Stream(data[i..])) == Register(data)
    {
      FeedByte(c, data[i]);
      SerialAppend(c, WordBits(data[i], 8), Stream(data[i + 1..]));
      assert data[i..][1..] == data[i + 1..];
      var entry := table[Xor32(c, data[i]) % 256];
      assert entry == table[..][Xor32(c, data[i]) % 256];
      c := Xor32(entry, c / 256);
    }
    r := Not32(c);
  }
}
