/** Machine words, power-of-two sizes and the modular arithmetic behind masked indices.

    Unsigned words are ranges of the integers. Wherever the code wraps, saturates or truncates, that is
    written out: `% U32_SIZE` for wrapping sums, `SatSub` for saturating differences, `WrapSub32` for
    wrapping ones. Bits are read with `BitSet` and set with `OrBit`, so nothing here needs bit-vectors.
    A size is a power of two of at most 2^31, and an index is masked by taking it modulo the size. */
module Words {
  const U32_SIZE: int := 0x1_0000_0000
  const U64_SIZE: int := 0x1_0000_0000_0000_0000

  type u8 = x: int | 0 <= x < 256
  type u16 = x: int | 0 <= x < 0x1_0000
  type u32 = x: int | 0 <= x < 0x1_0000_0000
  type u64 = x: int | 0 <= x < 0x1_0000_0000_0000_0000

  datatype Option<+T> = None | Some(value: T)

  datatype Result<+T, +E> = Ok(value: T) | Err(error: E)

  function Min(a: int, b: int): int { if a < b then a else b }

  function Max(a: int, b: int): int { if a < b then b else a }

  /** `a.wrapping_sub(b)` on `u32`. */
  function WrapSub32(a: u32, b: u32): u32 { (a - b) % U32_SIZE }

  /** `saturating_sub` on unsigned words. */
  function SatSub(a: nat, b: nat): nat { if a >= b then a - b else 0 }

  // ---- bits of a 32-bit map ----

  /** Bit `i` of a map: `map & (1 << i) != 0`. */
  predicate BitSet(m: nat, i: nat) {
    if i == 0 then m % 2 == 1 else BitSet(m / 2, i - 1)
  }

  /** `map | (1 << i)`. */
  function OrBit(m: nat, i: nat): nat {
    if BitSet(m, i) then m else m + Pow2(i)
  }

  /** `map |= 1 << d` sets bit `d` and no other, and stays within the word. */
  lemma {:induction false} OrBitSets(m: nat, d: nat, k: nat)
    ensures BitSet(OrBit(m, d), k) == (k == d || BitSet(m, k))
  {
    if d == 0 {
      if k > 0 && !BitSet(m, 0) { assert (m + 1) / 2 == m / 2; }
    } else {
      OrBitHalf(m, d);
      if k > 0 { OrBitSets(m / 2, d - 1, k - 1); }
    }
  }

  lemma OrBitHalf(m: nat, d: nat)
    requires d > 0
    ensures OrBit(m, d) / 2 == OrBit(m / 2, d - 1) && OrBit(m, d) % 2 == m % 2
  {
    assert Pow2(d) == 2 * Pow2(d - 1);
  }

  lemma {:induction false} OrBitBound(m: nat, d: nat, n: nat)
    requires d < n && m < Pow2(n)
    ensures OrBit(m, d) < Pow2(n)
  {
    var half := Pow2(n - 1);
    if d > 0 {
      HalfBelow(m, half);
      OrBitBound(m / 2, d - 1, n - 1);
      OrBitHalf(m, d);
      HalfBelow(OrBit(m, d), half);
    } else if m % 2 == 0 {
      EvenBelow(m, half);
    }
  }

  lemma HalfBelow(x: nat, half: nat)
    ensures x / 2 < half <==> x < 2 * half
  {
  }

  lemma EvenBelow(x: nat, half: nat)
    requires x < 2 * half && x % 2 == 0
    ensures x + 1 < 2 * half
  {
  }

  /** `map | (1 << i)` on `u32`. */
  function OrBit32(m: u32, i: nat): u32
    requires i < 32
  {
    Pow2At32();
    OrBitBound(m, i, 32);
    OrBit(m, i)
  }

  lemma {:induction false} HighBitClear(m: nat, k: nat)
    requires m < Pow2(k)
    ensures !BitSet(m, k)
  {
    if k > 0 { HighBitClear(m / 2, k - 1); }
  }

  lemma {:induction false} NoBits(k: nat)
    ensures !BitSet(0, k)
  {
    if k > 0 { NoBits(k - 1); }
  }

  // ---- modular arithmetic ----

  /** Quotient and remainder are determined by the division equation. */
  lemma ModUnique(x: int, w: int, q: int, r: int)
    requires 0 <= r < w && x == w * q + r
    ensures x % w == r && x / w == q
  {
    var d := q - x / w;
    assert w * d == x % w - r by {
      assert x == w * (x / w) + x % w;
      assert w * d == w * q - w * (x / w);
    }
    if d >= 1 { MulMono(w, 1, d); } else if d <= -1 { MulMono(w, d, -1); }
  }

  lemma MulMono(w: int, a: int, b: int)
    requires w >= 0 && a <= b
    ensures w * a <= w * b
  {
  }

  lemma ModAddMul(x: int, w: int, k: int)
    requires w > 0
    ensures (x + w * k) % w == x % w
  {
    assert x + w * k == w * (x / w + k) + x % w;
    ModUnique(x + w * k, w, x / w + k, x % w);
  }

  /** Reducing modulo a multiple of `w` first does not change the residue modulo `w`. */
  lemma ModMod(x: int, big: int, w: int)
    requires w > 0 && big > 0 && big % w == 0
    ensures (x % big) % w == x % w
  {
    var q := big / w;
    var k := x / big;
    assert big == w * q;
    assert x == x % big + w * (q * k) by {
      assert big * k == w * (q * k);
    }
    ModAddMul(x % big, w, q * k);
  }

  /** Moving both operands by the same amount keeps a difference modulo `w`. */
  lemma ModSub(x: int, y: int, w: int)
    requires w > 0
    ensures (x % w - y % w) % w == (x - y) % w
    ensures (x - y % w) % w == (x - y) % w
  {
    var d := x / w - y / w;
    assert x - y == (x % w - y % w) + w * d by {
      assert w * d == w * (x / w) - w * (y / w);
    }
    ModAddMul(x % w - y % w, w, d);
    assert x - y == (x - y % w) + w * (-(y / w));
    ModAddMul(x - y % w, w, -(y / w));
  }

  lemma ModAdd(x: int, y: int, w: int)
    requires w > 0
    ensures (x % w + y) % w == (x + y) % w
  {
    assert x + y == (x % w + y) + w * (x / w);
    ModAddMul(x % w + y, w, x / w);
  }

  /** Numbers less than `w` apart with the same residue are equal. */
  lemma ModInjective(x: int, y: int, w: int)
    requires w > 0 && x % w == y % w && -w < x - y < w
    ensures x == y
  {
    var d := x / w - y / w;
    assert x - y == w * d by {
      assert w * d == w * (x / w) - w * (y / w);
    }
    if d >= 1 { MulMono(w, 1, d); } else if d <= -1 { MulMono(w, d, -1); }
  }

  // ---- powers of two ----

  function Pow2(k: nat): (p: nat)
    ensures p >= 1
  {
    if k == 0 then 1 else 2 * Pow2(k - 1)
  }

  lemma {:induction false} Pow2Add(a: nat, b: nat)
    ensures Pow2(a + b) == Pow2(a) * Pow2(b)
  {
    if a > 0 {
      Pow2Add(a - 1, b);
      assert Pow2(a) * Pow2(b) == 2 * (Pow2(a - 1) * Pow2(b));
    }
  }

  /** A smaller power of two divides a larger one. */
  lemma Pow2Divides(a: nat, b: nat)
    requires a <= b
    ensures Pow2(b) % Pow2(a) == 0
    ensures Pow2(a) <= Pow2(b)
  {
    Pow2Add(a, b - a);
    ModAddMul(0, Pow2(a), Pow2(b - a));
    MulMono(Pow2(a), 1, Pow2(b - a));
  }

  /** A ring or window size the source can build: a power of two of at most 2^31. */
  ghost predicate IsSize(w: int) {
    exists k: nat :: k <= 31 && w == Pow2(k)
  }

  lemma SizeDivides(w: int)
    requires IsSize(w)
    ensures 1 <= w <= 0x8000_0000
    ensures U32_SIZE % w == 0 && U64_SIZE % w == 0
  {
    var k: nat :| k <= 31 && w == Pow2(k);
    Pow2At32();
    Pow2Divides(k, 31);
    Pow2Divides(k, 32);
    Pow2Divides(k, 64);
  }

  lemma StepResidue(o: int, d: int, w: int)
    requires w > 0 && U32_SIZE % w == 0
    ensures ((o + d) % U32_SIZE) % w == (o % w + d) % w
  {
    ModMod(o + d, U32_SIZE, w);
    ModAdd(o, d, w);
  }

  lemma SmallResidue(a: int, d: int, w: int)
    requires 0 <= a < w && 0 <= d < w
    ensures (a + d) % w == if a + d < w then a + d else a + d - w
  {
    if a + d < w { ModUnique(a + d, w, 0, a + d); } else { ModUnique(a + d, w, 1, a + d - w); }
  }

  lemma ResidueRange(a: int, w: int)
    requires w > 0
    ensures 0 <= a % w < w
  {
  }

  lemma SubThenAdd(s: u32, o: u32)
    ensures (o + WrapSub32(s, o)) % U32_SIZE == s
  {
  }

  /** A word less than `w` past `o` (modulo 2^32) is as far past it among the masked indices. */
  lemma WindowOffset(s: u32, o: u32, w: int)
    requires IsSize(w) && WrapSub32(s, o) < w
    ensures 0 <= s % w < w && 0 <= o % w < w
    ensures WrapSub32(s, o) == if s % w >= o % w then s % w - o % w else s % w - o % w + w
  {
    SizeDivides(w);
    var d := WrapSub32(s, o);
    SubThenAdd(s, o);
    StepResidue(o, d, w);
    ResidueRange(o, w);
    ResidueRange(s, w);
    SmallResidue(o % w, d, w);
  }

  /** The converse: the word `d` past `o` has the masked index `d` past that of `o`. */
  lemma WindowIndex(o: u32, d: nat, w: int)
    requires IsSize(w) && d < w
    ensures 0 <= o % w < w
    ensures ((o + d) % U32_SIZE) % w == if o % w + d < w then o % w + d else o % w + d - w
  {
    SizeDivides(w);
    AddThenSub(o, d);
    WindowOffset((o + d) % U32_SIZE, o, w);
  }

  lemma AddThenSub(o: u32, d: u32)
    ensures WrapSub32((o + d) % U32_SIZE, o) == d
  {
  }

  /** Distances from a common origin subtract, wrapping at most once. */
  lemma Distances(s: u32, b: u32, o: u32)
    ensures var d, g := WrapSub32(s, o), WrapSub32(b, o);
            WrapSub32(s, b) == if d >= g then d - g else d - g + U32_SIZE
  {
  }

  lemma Pow2At32()
    ensures Pow2(31) == 0x8000_0000 && Pow2(32) == U32_SIZE && Pow2(64) == U64_SIZE
  {
    assert Pow2(8) == 256;
    Squared(16, 8, 256);
    Squared(32, 16, 0x1_0000);
    Squared(64, 32, U32_SIZE);
    assert Pow2(32) == 2 * Pow2(31);
  }

  lemma Squared(k: nat, h: nat, p: nat)
    requires k == 2 * h && Pow2(h) == p
    ensures Pow2(k) == p * p
  {
    Pow2Add(h, h);
  }

  /** `next_power_of_two`: the least power of two that is at least `n` (1 for 0). */
  function NextPow2(n: nat): (p: nat)
    requires n <= 0x8000_0000
    ensures IsSize(p) && p >= n
    ensures forall k: nat {:trigger Pow2(k)} :: Pow2(k) >= n ==> Pow2(k) >= p
  {
    Pow2At32();
    NextPow2From(n, 0)
  }

  function NextPow2From(n: nat, k: nat): (p: nat)
    requires n <= Pow2(31) && k <= 31
    requires k == 0 || Pow2(k - 1) < n
    ensures IsSize(p) && p >= n
    ensures forall j: nat {:trigger Pow2(j)} :: Pow2(j) >= n ==> Pow2(j) >= p
    decreases 31 - k
  {
    if Pow2(k) >= n then
      LeastPow2(n, k);
      Pow2(k)
    else
      assert k != 31;
      NextPow2From(n, k + 1)
  }

  lemma LeastPow2(n: nat, k: nat)
    requires k == 0 || Pow2(k - 1) < n
    ensures forall j: nat {:trigger Pow2(j)} :: Pow2(j) >= n ==> Pow2(j) >= Pow2(k)
  {
    forall j: nat | Pow2(j) >= n
      ensures Pow2(j) >= Pow2(k)
    {
      if j < k { Pow2Divides(j, k - 1); } else { Pow2Divides(k, j); }
    }
  }
}
