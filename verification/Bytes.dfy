/** Little-endian images of unsigned integers, and records of fixed-width fields.

    A record is a list of field widths in bytes with a list of values that fit them. `Pack` lays the
    fields out densely, low byte first, and `Unpack` reads them from the front of any string that is long
    enough. The structs of the link and the frames of the flight log are given as such records; that
    packing and unpacking undo each other is proved once, here. */
module Bytes {
  import opened Words

  /** 2 to the number of bits in `k` bytes. */
  function Pow256(k: nat): (p: nat)
    ensures p >= 1
  {
    if k == 0 then 1 else 256 * Pow256(k - 1)
  }

  /** The low `k` bytes of `v`, low byte first. */
  function Le(v: nat, k: nat): (b: seq<u8>)
    ensures |b| == k
    decreases k, v
  {
    if k == 0 then [] else [v % 256] + Le(v / 256, k - 1)
  }

  function FromLe(b: seq<u8>): (v: nat)
    ensures v < Pow256(|b|)
    decreases b
  {
    if b == [] then 0 else b[0] + 256 * FromLe(b[1..])
  }

  lemma {:induction false} FromLeLe(v: nat, k: nat)
    requires v < Pow256(k)
    ensures FromLe(Le(v, k)) == v
    decreases k
  {
    if k > 0 {
      FromLeLe(v / 256, k - 1);
      assert Le(v, k)[1..] == Le(v / 256, k - 1);
    }
  }

  lemma {:induction false} LeFromLe(b: seq<u8>)
    ensures Le(FromLe(b), |b|) == b
    decreases b
  {
    if b != [] {
      LeFromLe(b[1..]);
      DivideByte(b[0], FromLe(b[1..]));
      assert b == [b[0]] + b[1..];
    }
  }

  lemma DivideByte(d: u8, t: nat)
    ensures (d + 256 * t) % 256 == d && (d + 256 * t) / 256 == t
  {
  }

  lemma Widths()
    ensures Pow256(1) == 0x100 && Pow256(2) == 0x1_0000 && Pow256(4) == U32_SIZE && Pow256(8) == U64_SIZE
  {
    assert Pow256(4) == 256 * (256 * (256 * (256 * Pow256(0))));
    assert Pow256(8) == 256 * (256 * (256 * (256 * Pow256(4))));
  }

  // ---- records of fixed-width fields ----

  /** The length of a record with fields of these widths. */
  function Total(widths: seq<nat>): nat
    decreases widths
  {
    if widths == [] then 0 else widths[0] + Total(widths[1..])
  }

  ghost predicate Fits(widths: seq<nat>, values: seq<nat>) {
    |values| == |widths| && forall i :: 0 <= i < |values| ==> values[i] < Pow256(widths[i])
  }

  /** The dense little-endian image of a record. */
  function Pack(widths: seq<nat>, values: seq<nat>): (b: seq<u8>)
    requires |values| == |widths|
    ensures |b| == Total(widths)
    decreases widths, values
  {
    if widths == [] then [] else Le(values[0], widths[0]) + Pack(widths[1..], values[1..])
  }

  function Unpack(widths: seq<nat>, b: seq<u8>): (values: seq<nat>)
    requires |b| >= Total(widths)
    ensures |values| == |widths|
    decreases widths, b
  {
    if widths == [] then [] else [FromLe(b[..widths[0]])] + Unpack(widths[1..], b[widths[0]..])
  }

  lemma {:induction false} UnpackFits(widths: seq<nat>, b: seq<u8>)
    requires |b| >= Total(widths)
    ensures Fits(widths, Unpack(widths, b))
    decreases widths
  {
    if widths != [] {
      UnpackFits(widths[1..], b[widths[0]..]);
      var tail := Unpack(widths[1..], b[widths[0]..]);
      var values := Unpack(widths, b);
      forall i | 0 <= i < |values|
        ensures values[i] < Pow256(widths[i])
      {
        if i > 0 { assert values[i] == tail[i - 1]; }
      }
    }
  }

  /** Reading a record back gives its fields, whatever follows it. */
  lemma {:induction false} UnpackPack(widths: seq<nat>, values: seq<nat>, rest: seq<u8>)
    requires Fits(widths, values)
    ensures Unpack(widths, Pack(widths, values) + rest) == values
    decreases widths
  {
    if widths != [] {
      var head, tail := Le(values[0], widths[0]), Pack(widths[1..], values[1..]);
      Behind(head, tail, rest);
      FromLeLe(values[0], widths[0]);
      UnpackPack(widths[1..], values[1..], rest);
      UnpackNext(widths, head, tail + rest, values[0], values[1..]);
      assert values == [values[0]] + values[1..];
    }
  }

  lemma UnpackNext(widths: seq<nat>, head: seq<u8>, more: seq<u8>, value: nat, values: seq<nat>)
    requires widths != [] && |head| == widths[0] && FromLe(head) == value
    requires |more| >= Total(widths[1..]) && Unpack(widths[1..], more) == values
    ensures Unpack(widths, head + more) == [value] + values
  {
    assert (head + more)[..widths[0]] == head && (head + more)[widths[0]..] == more;
  }

  lemma Behind(head: seq<u8>, tail: seq<u8>, rest: seq<u8>)
    ensures (head + tail) + rest == head + (tail + rest)
  {
  }
}
