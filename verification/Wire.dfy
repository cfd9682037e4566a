/** The fixed-layout structs the link carries, each with its dense little-endian image.

    Floats are their 32-bit patterns. The serializer's archive of a struct is taken to be that image, so
    reading a struct is reading its fields from the front of the payload. Each struct has its list of
    field widths, the function from the struct to its fields, and the way back. */
module Wire {
  import opened Bytes
  import opened Reliable
  import opened Words

  type Floats6 = s: seq<u32> | |s| == 6 witness [0, 0, 0, 0, 0, 0]
  type Floats8 = s: seq<u32> | |s| == 8 witness [0, 0, 0, 0, 0, 0, 0, 0]

  datatype ControlCommand = ControlCommand(
    magic: u32, version: u16, reserved: u16, seqNo: u64, timestampNs: u64,
    mode: u8, flags: u8, axisCount: u8, pad0: u8, axes: Floats6, crc: u32)

  datatype TelemetryPacket = TelemetryPacket(
    magic: u32, kind: u16, reserved: u16, seqNo: u64, timestampNs: u64, values: Floats8)

  datatype MeshBeacon = MeshBeacon(
    magic: u32, version: u16, flags: u8, pad0: u8, unitId: u64, seqNo: u32, pad1: u32,
    tsNs: u64, listenPort: u16, pad2: u16, pad3: u32)

  const MESH_MAGIC: u32 := 0x4D53_4801

  function CommandWidths(): seq<nat> { [4, 2, 2, 8, 8, 1, 1, 1, 1, 4, 4, 4, 4, 4, 4, 4] }

  function TelemetryWidths(): seq<nat> { [4, 2, 2, 8, 8, 4, 4, 4, 4, 4, 4, 4, 4] }

  function BeaconWidths(): seq<nat> { [4, 2, 1, 1, 8, 4, 4, 8, 2, 2, 4] }

  function AckWidths(): seq<nat> { [4, 4, 8] }

  const COMMAND_LEN: int := 56
  const TELEMETRY_LEN: int := 56
  const BEACON_LEN: int := 40
  const ACK_LEN: int := 16

  lemma TotalStep(w: seq<nat>, i: nat)
    requires i < |w|
    ensures Total(w[i..]) == w[i] + Total(w[i + 1..])
  {
    assert w[i..][1..] == w[i + 1..];
  }

  lemma CommandTotal(w: seq<nat>)
    requires w == CommandWidths()
    ensures Total(w) == COMMAND_LEN
  {
    assert w[0..] == w;
    TotalStep(w, 0); TotalStep(w, 1); TotalStep(w, 2); TotalStep(w, 3);
    TotalStep(w, 4); TotalStep(w, 5); TotalStep(w, 6); TotalStep(w, 7);
    TotalStep(w, 8); TotalStep(w, 9); TotalStep(w, 10); TotalStep(w, 11);
    TotalStep(w, 12); TotalStep(w, 13); TotalStep(w, 14); TotalStep(w, 15);
  }

  lemma TelemetryTotal(w: seq<nat>)
    requires w == TelemetryWidths()
    ensures Total(w) == TELEMETRY_LEN
  {
    assert w[0..] == w;
    TotalStep(w, 0); TotalStep(w, 1); TotalStep(w, 2); TotalStep(w, 3);
    TotalStep(w, 4); TotalStep(w, 5); TotalStep(w, 6); TotalStep(w, 7);
    TotalStep(w, 8); TotalStep(w, 9); TotalStep(w, 10); TotalStep(w, 11);
    TotalStep(w, 12);
  }

  lemma BeaconTotal(w: seq<nat>)
    requires w == BeaconWidths()
    ensures Total(w) == BEACON_LEN
  {
    assert w[0..] == w;
    TotalStep(w, 0); TotalStep(w, 1); TotalStep(w, 2); TotalStep(w, 3);
    TotalStep(w, 4); TotalStep(w, 5); TotalStep(w, 6); TotalStep(w, 7);
    TotalStep(w, 8); TotalStep(w, 9); TotalStep(w, 10);
  }

  lemma AckTotal(w: seq<nat>)
    requires w == AckWidths()
    ensures Total(w) == ACK_LEN
  {
    assert w[0..] == w;
    TotalStep(w, 0); TotalStep(w, 1); TotalStep(w, 2);
  }

  // ---- control commands ----

  function CommandFields(c: ControlCommand): (v: seq<nat>)
    ensures |v| == |CommandWidths()|
  {
    [c.magic, c.version, c.reserved, c.seqNo, c.timestampNs, c.mode, c.flags, c.axisCount, c.pad0] + c.axes + [c.crc]
  }

  lemma CommandFits(c: ControlCommand)
    ensures Fits(CommandWidths(), CommandFields(c))
  {
    Widths();
    var v, w := CommandFields(c), CommandWidths();
    forall i | 9 <= i < 15
      ensures v[i] < Pow256(w[i])
    {
      assert v[i] == c.axes[i - 9];
    }
  }

  function CommandOf(v: seq<nat>): ControlCommand
    requires Fits(CommandWidths(), v)
  {
    Widths();
    var w := CommandWidths();
    assert forall i :: 9 <= i < 15 ==> v[i] < Pow256(w[i]) && w[i] == 4;
    assert v[0] < Pow256(w[0]) && v[1] < Pow256(w[1]) && v[2] < Pow256(w[2]) && v[3] < Pow256(w[3])
           && v[4] < Pow256(w[4]) && v[5] < Pow256(w[5]) && v[6] < Pow256(w[6]) && v[7] < Pow256(w[7])
           && v[8] < Pow256(w[8]) && v[15] < Pow256(w[15]);
    ControlCommand(v[0], v[1], v[2], v[3], v[4], v[5], v[6], v[7], v[8], v[9..15], v[15])
  }

  /** The 56-byte raw image. */
  function CommandImage(c: ControlCommand): (b: seq<u8>)
    ensures |b| == COMMAND_LEN
  {
    CommandTotal(CommandWidths());
    Pack(CommandWidths(), CommandFields(c))
  }

  function ReadCommand(b: seq<u8>): ControlCommand
    requires |b| >= COMMAND_LEN
  {
    CommandTotal(CommandWidths());
    UnpackFits(CommandWidths(), b);
    CommandOf(Unpack(CommandWidths(), b))
  }

  lemma CommandOfFields(c: ControlCommand)
    requires Fits(CommandWidths(), CommandFields(c))
    ensures CommandOf(CommandFields(c)) == c
  {
    assert CommandFields(c)[9..15] == c.axes;
  }

  lemma CommandRoundTrip(c: ControlCommand, rest: seq<u8>)
    ensures ReadCommand(CommandImage(c) + rest) == c
  {
    CommandTotal(CommandWidths());
    CommandFits(c);
    UnpackPack(CommandWidths(), CommandFields(c), rest);
    CommandOfFields(c);
  }

  // ---- telemetry packets ----

  function TelemetryFields(p: TelemetryPacket): (v: seq<nat>)
    ensures |v| == |TelemetryWidths()|
  {
    [p.magic, p.kind, p.reserved, p.seqNo, p.timestampNs] + p.values
  }

  lemma TelemetryFits(p: TelemetryPacket)
    ensures Fits(TelemetryWidths(), TelemetryFields(p))
  {
    Widths();
    var v, w := TelemetryFields(p), TelemetryWidths();
    forall i | 5 <= i < 13
      ensures v[i] < Pow256(w[i])
    {
      assert v[i] == p.values[i - 5];
    }
  }

  function TelemetryOf(v: seq<nat>): TelemetryPacket
    requires Fits(TelemetryWidths(), v)
  {
    Widths();
    var w := TelemetryWidths();
    assert forall i :: 5 <= i < 13 ==> v[i] < Pow256(w[i]) && w[i] == 4;
    assert v[0] < Pow256(w[0]) && v[1] < Pow256(w[1]) && v[2] < Pow256(w[2]) && v[3] < Pow256(w[3])
           && v[4] < Pow256(w[4]);
    TelemetryPacket(v[0], v[1], v[2], v[3], v[4], v[5..13])
  }

  function TelemetryImage(p: TelemetryPacket): (b: seq<u8>)
    ensures |b| == TELEMETRY_LEN
  {
    TelemetryTotal(TelemetryWidths());
    Pack(TelemetryWidths(), TelemetryFields(p))
  }

  function ReadTelemetry(b: seq<u8>): TelemetryPacket
    requires |b| >= TELEMETRY_LEN
  {
    TelemetryTotal(TelemetryWidths());
    UnpackFits(TelemetryWidths(), b);
    TelemetryOf(Unpack(TelemetryWidths(), b))
  }

  lemma TelemetryOfFields(p: TelemetryPacket)
    requires Fits(TelemetryWidths(), TelemetryFields(p))
    ensures TelemetryOf(TelemetryFields(p)) == p
  {
    assert TelemetryFields(p)[5..13] == p.values;
  }

  lemma TelemetryRoundTrip(p: TelemetryPacket, rest: seq<u8>)
    ensures ReadTelemetry(TelemetryImage(p) + rest) == p
  {
    TelemetryTotal(TelemetryWidths());
    TelemetryFits(p);
    UnpackPack(TelemetryWidths(), TelemetryFields(p), rest);
    TelemetryOfFields(p);
  }

  // ---- mesh beacons ----

  function BeaconFields(m: MeshBeacon): (v: seq<nat>)
    ensures |v| == |BeaconWidths()|
  {
    [m.magic, m.version, m.flags, m.pad0, m.unitId, m.seqNo, m.pad1, m.tsNs, m.listenPort, m.pad2, m.pad3]
  }

  lemma BeaconFits(m: MeshBeacon)
    ensures Fits(BeaconWidths(), BeaconFields(m))
  {
    Widths();
  }

  function BeaconOf(v: seq<nat>): MeshBeacon
    requires Fits(BeaconWidths(), v)
  {
    Widths();
    var w := BeaconWidths();
    assert v[0] < Pow256(w[0]) && v[1] < Pow256(w[1]) && v[2] < Pow256(w[2]) && v[3] < Pow256(w[3])
           && v[4] < Pow256(w[4]) && v[5] < Pow256(w[5]) && v[6] < Pow256(w[6]) && v[7] < Pow256(w[7])
           && v[8] < Pow256(w[8]) && v[9] < Pow256(w[9]) && v[10] < Pow256(w[10]);
    MeshBeacon(v[0], v[1], v[2], v[3], v[4], v[5], v[6], v[7], v[8], v[9], v[10])
  }

  function BeaconImage(m: MeshBeacon): (b: seq<u8>)
    ensures |b| == BEACON_LEN
  {
    BeaconTotal(BeaconWidths());
    Pack(BeaconWidths(), BeaconFields(m))
  }

  /** `MeshBeacon::decode`: any longer payload will do, but magic and version must match. */
  function ReadBeacon(b: seq<u8>): Option<MeshBeacon> {
    if |b| < BEACON_LEN then None
    else
      BeaconTotal(BeaconWidths());
      UnpackFits(BeaconWidths(), b);
      var m := BeaconOf(Unpack(BeaconWidths(), b));
      if m.magic == MESH_MAGIC && m.version == 1 then Some(m) else None
  }

  lemma BeaconRoundTrip(m: MeshBeacon, rest: seq<u8>)
    ensures ReadBeacon(BeaconImage(m) + rest)
            == if m.magic == MESH_MAGIC && m.version == 1 then Some(m) else None
  {
    BeaconTotal(BeaconWidths());
    BeaconFits(m);
    UnpackPack(BeaconWidths(), BeaconFields(m), rest);
    assert BeaconOf(BeaconFields(m)) == m;
  }

  // ---- acknowledgements ----

  function AckFields(a: AckFrame): (v: seq<nat>)
    ensures |v| == |AckWidths()|
  {
    [a.baseSeq, a.bitmap, a.rttSampleNs]
  }

  function AckOf(v: seq<nat>): AckFrame
    requires Fits(AckWidths(), v)
  {
    Widths();
    var w := AckWidths();
    assert v[0] < Pow256(w[0]) && v[1] < Pow256(w[1]) && v[2] < Pow256(w[2]);
    AckFrame(v[0], v[1], v[2])
  }

  function AckImage(a: AckFrame): (b: seq<u8>)
    ensures |b| == ACK_LEN
  {
    AckTotal(AckWidths());
    Pack(AckWidths(), AckFields(a))
  }

  /** `AckFrame::decode`: the front of any payload that is long enough. */
  function ReadAck(b: seq<u8>): Option<AckFrame> {
    if |b| < ACK_LEN then None
    else
      AckTotal(AckWidths());
      UnpackFits(AckWidths(), b);
      Some(AckOf(Unpack(AckWidths(), b)))
  }

  lemma AckRoundTrip(a: AckFrame, rest: seq<u8>)
    ensures ReadAck(AckImage(a) + rest) == Some(a)
  {
    AckTotal(AckWidths());
    Widths();
    UnpackPack(AckWidths(), AckFields(a), rest);
    assert AckOf(AckFields(a)) == a;
  }
}
