/** The UDP multiplexer's framing: header, payload, CRC trailer, and the parser that undoes it. */
module Mux {
  import opened Bytes
  import opened Crc
  import opened Reliable
  import opened Wire
  import opened Words

  const MAX_DATAGRAM: int := 1500
  const HEADER_LEN: int := 16
  const TRAILER_LEN: int := 4
  const MAX_PAYLOAD: int := 1480

  const FRAME_MAGIC: u32 := 0x5450_5431
  const PROTOCOL_VERSION: u16 := 1

  datatype Channel = Control | Telemetry | Media | Ice | Mesh | Secure {
    function AsU8(): u8 {
      match this
      case Control => 1
      case Telemetry => 2
      case Media => 3
      case Ice => 4
      case Mesh => 5
      case Secure => 6
    }
  }

  function ChannelOf(v: u8): Option<Channel> {
    if v == 1 then Some(Control)
    else if v == 2 then Some(Telemetry)
    else if v == 3 then Some(Media)
    else if v == 4 then Some(Ice)
    else if v == 5 then Some(Mesh)
    else if v == 6 then Some(Secure)
    else None
  }

  /** `flags & ACK != 0` and `flags & RELIABLE != 0`. */
  predicate AckFlag(flags: u8) { flags % 2 == 1 }

  predicate ReliableFlag(flags: u8) { flags / 2 % 2 == 1 }

  // ---- frames ----

  function Header(chan: Channel, flags: u8, len: u16): (b: seq<u8>)
    ensures |b| == HEADER_LEN
  {
    Le(FRAME_MAGIC, 4) + Le(PROTOCOL_VERSION, 2) + Le(len, 2) + [chan.AsU8(), flags] + [0, 0, 0, 0, 0, 0]
  }

  /** Header and payload. */
  function Body(chan: Channel, flags: u8, payload: seq<u8>): (b: seq<u8>)
    requires |payload| <= MAX_PAYLOAD
    ensures |b| == HEADER_LEN + |payload|
  {
    Header(chan, flags, |payload|) + payload
  }

  function Checked(body: seq<u8>): (b: seq<u8>)
    ensures |b| == |body| + TRAILER_LEN
  {
    body + Le32(Crc32Of(body))
  }

  /** A whole datagram. */
  function Frame(chan: Channel, flags: u8, payload: seq<u8>): (b: seq<u8>)
    requires |payload| <= MAX_PAYLOAD
    ensures |b| == HEADER_LEN + |payload| + TRAILER_LEN
  {
    Checked(Body(chan, flags, payload))
  }

  // ---- the parser ----

  datatype FrameError = Malformed | CrcError | PayloadError

  datatype Inbound =
    | ControlIn(cmd: ControlCommand, reliable: bool)
    | TelemetryIn(pkt: TelemetryPacket)
    | IceIn(payload: seq<u8>)
    | MeshIn(beacon: MeshBeacon)
    | AckIn(ack: AckFrame)
    | SecureIn(sealed: seq<u8>, inner: u8)

  /** The root of an archive is its last `size` bytes, which must be 8-byte aligned. */
  function AccessRoot(payload: seq<u8>, size: nat): (r: Option<seq<u8>>)
    ensures r.Some? ==> |r.value| == size
  {
    if |payload| >= size && (|payload| - size) % 8 == 0 then Some(payload[|payload| - size..]) else None
  }

  /** The integrity tag of a command: over its image with the tag itself zeroed. */
  function CommandCrc(cmd: ControlCommand): u32 { Crc32Of(CommandImage(cmd.(crc := 0))) }

  function ControlPayload(flags: u8, payload: seq<u8>): Result<Inbound, FrameError> {
    if AckFlag(flags) then
      var ack := ReadAck(payload);
      if ack.Some? then Ok(AckIn(ack.value)) else Err(PayloadError)
    else
      var root := AccessRoot(payload, COMMAND_LEN);
      if root.None? then Err(PayloadError)
      else CommandPayload(flags, ReadCommand(root.value))
  }

  function CommandPayload(flags: u8, cmd: ControlCommand): Result<Inbound, FrameError> {
    if CommandCrc(cmd) == cmd.crc then Ok(ControlIn(cmd, ReliableFlag(flags))) else Err(CrcError)
  }

  function TelemetryPayload(payload: seq<u8>): Result<Inbound, FrameError> {
    var root := AccessRoot(payload, TELEMETRY_LEN);
    if root.Some? then Ok(TelemetryIn(ReadTelemetry(root.value))) else Err(PayloadError)
  }

  function MeshPayload(payload: seq<u8>): Result<Inbound, FrameError> {
    var beacon := ReadBeacon(payload);
    if beacon.Some? then Ok(MeshIn(beacon.value)) else Err(PayloadError)
  }

  /** What the payload of an intact frame is. */
  function Dispatch(chan: u8, flags: u8, payload: seq<u8>): Result<Inbound, FrameError> {
    match ChannelOf(chan)
    case Some(Control) => ControlPayload(flags, payload)
    case Some(Telemetry) => TelemetryPayload(payload)
    case Some(Ice) => Ok(IceIn(payload))
    case Some(Mesh) => MeshPayload(payload)
    case Some(Secure) => Ok(SecureIn(payload, flags))
    case Some(Media) => Err(PayloadError)
    case None => Err(PayloadError)
  }

  function Demux(buf: seq<u8>, n: nat): Result<Inbound, FrameError>
    requires |buf| == MAX_DATAGRAM && n <= MAX_DATAGRAM
  {
    if n < HEADER_LEN + TRAILER_LEN then Err(Malformed)
    else if FromLe(buf[..4]) != FRAME_MAGIC || FromLe(buf[4..6]) != PROTOCOL_VERSION then Err(Malformed)
    else
      var end := HEADER_LEN + FromLe(buf[6..8]);
      var total := end + TRAILER_LEN;
      if total != n then Err(Malformed)
      else if Crc32Of(buf[..end]) != FromLe(buf[end..total]) then Err(CrcError)
      else Dispatch(buf[8], buf[9], buf[HEADER_LEN..end])
  }

  /** The first `n` bytes have a right header, length and trailer. */
  ghost predicate Intact(b: seq<u8>) {
    && |b| >= HEADER_LEN + TRAILER_LEN
    && FromLe(b[..4]) == FRAME_MAGIC && FromLe(b[4..6]) == PROTOCOL_VERSION
    && HEADER_LEN + FromLe(b[6..8]) + TRAILER_LEN == |b|
    && Crc32Of(b[..|b| - TRAILER_LEN]) == FromLe(b[|b| - TRAILER_LEN..])
  }

  lemma HeaderReads(chan: Channel, flags: u8, len: u16, rest: seq<u8>)
    ensures var b := Header(chan, flags, len) + rest;
            && FromLe(b[..4]) == FRAME_MAGIC && FromLe(b[4..6]) == PROTOCOL_VERSION && FromLe(b[6..8]) == len
            && b[8] == chan.AsU8() && b[9] == flags
  {
    Widths();
    var b := Header(chan, flags, len) + rest;
    assert b[..4] == Le(FRAME_MAGIC, 4) && b[4..6] == Le(PROTOCOL_VERSION, 2) && b[6..8] == Le(len, 2);
    FromLeLe(FRAME_MAGIC, 4);
    FromLeLe(PROTOCOL_VERSION, 2);
    FromLeLe(len, 2);
  }

  /** The fixed header fields are read from the datagram itself. */
  lemma Prefix(buf: seq<u8>, n: nat)
    requires HEADER_LEN <= n <= |buf|
    ensures buf[..4] == buf[..n][..4] && buf[4..6] == buf[..n][4..6] && buf[6..8] == buf[..n][6..8]
    ensures buf[8] == buf[..n][8] && buf[9] == buf[..n][9]
  {
  }

  /** The parser reports a framing or check error exactly on datagrams that are not intact, and
      never looks past the datagram. */
  lemma DemuxIntact(buf: seq<u8>, n: nat)
    requires |buf| == MAX_DATAGRAM && n <= MAX_DATAGRAM
    ensures var b := buf[..n];
            Intact(b) ==> Demux(buf, n) == Dispatch(b[8], b[9], b[HEADER_LEN..n - TRAILER_LEN])
    ensures !Intact(buf[..n]) ==> Demux(buf, n) == Err(Malformed) || Demux(buf, n) == Err(CrcError)
  {
    var b := buf[..n];
    if n >= HEADER_LEN + TRAILER_LEN {
      Prefix(buf, n);
      var end := HEADER_LEN + FromLe(buf[6..8]);
      if end + TRAILER_LEN == n {
        assert buf[..end] == b[..end] && buf[end..n] == b[end..] && buf[HEADER_LEN..end] == b[HEADER_LEN..end];
      }
    }
  }

  /** A frame is intact and its parts are where the parser looks for them. */
  lemma FrameIntact(chan: Channel, flags: u8, payload: seq<u8>, b: seq<u8>)
    requires |payload| <= MAX_PAYLOAD && b == Frame(chan, flags, payload)
    ensures Intact(b) && b[8] == chan.AsU8() && b[9] == flags
    ensures b[HEADER_LEN..|b| - TRAILER_LEN] == payload
  {
    var body := Body(chan, flags, payload);
    HeaderReads(chan, flags, |payload|, payload);
    TrailerReads(body);
    CheckedIntact(body, Le32(Crc32Of(body)), b);
    assert body[HEADER_LEN..] == payload;
  }

  lemma TrailerReads(body: seq<u8>)
    ensures FromLe(Le32(Crc32Of(body))) == Crc32Of(body)
  {
    Widths();
    FromLeLe(Crc32Of(body), 4);
  }

  /** A body whose header states its length, followed by its check sequence, is intact. */
  lemma CheckedIntact(body: seq<u8>, trailer: seq<u8>, b: seq<u8>)
    requires |body| >= HEADER_LEN && |trailer| == TRAILER_LEN && b == body + trailer
    requires FromLe(trailer) == Crc32Of(body)
    requires FromLe(body[..4]) == FRAME_MAGIC && FromLe(body[4..6]) == PROTOCOL_VERSION
    requires HEADER_LEN + FromLe(body[6..8]) == |body|
    ensures Intact(b) && b[8] == body[8] && b[9] == body[9]
    ensures b[HEADER_LEN..|b| - TRAILER_LEN] == body[HEADER_LEN..]
  {
    assert b[..|body|] == body && b[|body|..] == trailer;
    assert b[..4] == body[..4] && b[4..6] == body[4..6] && b[6..8] == body[6..8];
  }

  /** Every frame parses, from any receive buffer that holds it, to what its payload is. */
  lemma FrameParses(buf: seq<u8>, n: nat, chan: Channel, flags: u8, payload: seq<u8>)
    requires |payload| <= MAX_PAYLOAD && |buf| == MAX_DATAGRAM
    requires n == HEADER_LEN + |payload| + TRAILER_LEN && buf[..n] == Frame(chan, flags, payload)
    ensures Demux(buf, n) == Dispatch(chan.AsU8(), flags, payload)
  {
    FrameIntact(chan, flags, payload, buf[..n]);
    DemuxIntact(buf, n);
  }

  lemma TrailerOf(b: seq<u8>)
    requires |b| >= TRAILER_LEN
    ensures var end := |b| - TRAILER_LEN;
            FromLe(b[end..]) < U32_SIZE && b == b[..end] + Le32(FromLe(b[end..]))
  {
    Widths();
    LeFromLe(b[|b| - TRAILER_LEN..]);
  }

  /** Integrity: change any bits of an intact datagram, all within 32 consecutive ones (so any one
      byte, or any two or three neighbours), and the parser rejects it. */
  lemma BurstRejected(buf: seq<u8>, buf': seq<u8>, n: nat, from: nat)
    requires |buf| == |buf'| == MAX_DATAGRAM && n <= MAX_DATAGRAM
    requires Intact(buf[..n]) && Burst(buf[..n], buf'[..n], from)
    ensures Demux(buf', n) == Err(Malformed) || Demux(buf', n) == Err(CrcError)
  {
    var b, b' := buf[..n], buf'[..n];
    var end := n - TRAILER_LEN;
    TrailerOf(b);
    TrailerOf(b');
    CheckedBurst(b[..end], b'[..end], FromLe(b[end..]), FromLe(b'[end..]), from);
    DemuxIntact(buf', n);
  }

  /** Any change of a single byte is such a burst. */
  lemma ByteIsBurst(b: seq<u8>, k: nat, v: u8)
    requires k < |b| && b[k] != v
    ensures Burst(b, b[k := v], 8 * k)
  {
    var b' := b[k := v];
    assert b == b[..k] + ([b[k]] + b[k + 1..]) && b' == b[..k] + ([v] + b[k + 1..]);
    StreamAround(b[..k], b[k], b[k + 1..]);
    StreamAround(b[..k], v, b[k + 1..]);
    SameOutside(Stream(b[..k]), WordBits(b[k], 8), WordBits(v, 8), Stream(b[k + 1..]));
  }

  lemma SameOutside(a: seq<bool>, x: seq<bool>, y: seq<bool>, c: seq<bool>)
    requires |x| == |y| == 8
    ensures var s, t := a + (x + c), a + (y + c);
            forall i :: 0 <= i < |s| && !(|a| <= i < |a| + 32) ==> s[i] == t[i]
  {
  }

  lemma StreamAround(a: seq<u8>, v: u8, c: seq<u8>)
    ensures Stream(a + ([v] + c)) == Stream(a) + (WordBits(v, 8) + Stream(c))
  {
    StreamAppend(a, [v] + c);
    assert ([v] + c)[1..] == c;
  }

  /** A datagram cut short or padded is rejected too. */
  lemma ResizedRejected(buf: seq<u8>, n: nat, m: nat)
    requires |buf| == MAX_DATAGRAM && n <= MAX_DATAGRAM && m <= MAX_DATAGRAM && m != n
    requires Intact(buf[..n])
    ensures Demux(buf, m) == Err(Malformed)
  {
    Prefix(buf, n);
  }

  // ---- the writers, filling the caller's packet buffer in place ----

  datatype IoError = InvalidData

  /** `out[at..at + src.len()].copy_from_slice(src)`. */
  method CopyInto(out: array<u8>, at: nat, src: seq<u8>)
    requires at + |src| <= out.Length
    modifies out
    ensures out[..] == old(out[..at]) + src + old(out[at + |src|..])
  {
    ghost var was := out[..];
    for i := 0 to |src|
      invariant out[..] == was[..at] + src[..i] + was[at + i..]
    {
      out[at + i] := src[i];
    }
  }

  method WriteHeader(out: array<u8>, chan: Channel, flags: u8, payloadLen: u16)
    requires out.Length == MAX_DATAGRAM
    modifies out
    ensures out[..] == Header(chan, flags, payloadLen) + old(out[HEADER_LEN..])
  {
    var hdr := Le(FRAME_MAGIC, 4) + Le(PROTOCOL_VERSION, 2) + Le(payloadLen, 2);
    ghost var rest := out[HEADER_LEN..];
    CopyInto(out, 0, hdr);
    out[8] := chan.AsU8();
    out[9] := flags;
    assert out[..10] == hdr + [chan.AsU8(), flags] && out[HEADER_LEN..] == rest;
    CopyInto(out, 10, [0, 0, 0, 0, 0, 0]);
  }

  /** Appends the trailer and returns the datagram's length. */
  method FinishFrame(out: array<u8>, end: nat) returns (total: nat)
    requires end + TRAILER_LEN <= out.Length
    modifies out
    ensures total == end + TRAILER_LEN
    ensures out[..total] == Checked(old(out[..end])) && out[total..] == old(out[total..])
  {
    var sum := Crc32(out[..end]);
    CopyInto(out, end, Le32(sum));
    total := end + TRAILER_LEN;
  }

  /** What a writer leaves: a whole frame in front, or an untouched buffer and an error. */
  ghost predicate Written(was: seq<u8>, now: seq<u8>, chan: Channel, flags: u8, payload: seq<u8>,
                          r: Result<nat, IoError>)
    requires |now| == MAX_DATAGRAM
  {
    if |payload| > MAX_PAYLOAD then r == Err(InvalidData) && now == was
    else r == Ok(HEADER_LEN + |payload| + TRAILER_LEN) && now[..r.value] == Frame(chan, flags, payload)
  }

  /** A command with its integrity tag filled in. */
  function Stamped(cmd: ControlCommand): ControlCommand { cmd.(crc := CommandCrc(cmd)) }

  method WriteControlFrame(cmd: ControlCommand, frameFlags: u8, out: array<u8>) returns (r: Result<nat, IoError>)
    requires out.Length == MAX_DATAGRAM
    modifies out
    ensures Written(old(out[..]), out[..], Control, frameFlags, CommandImage(Stamped(cmd)), r)
  {
    var crc := Crc32(CommandImage(cmd.(crc := 0)));
    var scratch := CommandImage(cmd.(crc := crc));
    var n := |scratch|;
    if n > MAX_PAYLOAD { return Err(InvalidData); }
    WriteHeader(out, Control, frameFlags, n);
    CopyInto(out, HEADER_LEN, scratch);
    assert out[..HEADER_LEN + n] == Body(Control, frameFlags, scratch);
    var total := FinishFrame(out, HEADER_LEN + n);
    r := Ok(total);
  }

  method WriteTelemetryFrame(pkt: TelemetryPacket, out: array<u8>) returns (r: Result<nat, IoError>)
    requires out.Length == MAX_DATAGRAM
    modifies out
    ensures Written(old(out[..]), out[..], Telemetry, 0, TelemetryImage(pkt), r)
  {
    var scratch := TelemetryImage(pkt);
    var n := |scratch|;
    if n > MAX_PAYLOAD { return Err(InvalidData); }
    WriteHeader(out, Telemetry, 0, n);
    CopyInto(out, HEADER_LEN, scratch);
    assert out[..HEADER_LEN + n] == Body(Telemetry, 0, scratch);
    var total := FinishFrame(out, HEADER_LEN + n);
    r := Ok(total);
  }

  /** The shape of the other writers: the payload goes in first, then the header before it. */
  method FrameInPlace(chan: Channel, flags: u8, bytes: seq<u8>, out: array<u8>) returns (total: nat)
    requires out.Length == MAX_DATAGRAM && |bytes| <= MAX_PAYLOAD
    modifies out
    ensures Written(old(out[..]), out[..], chan, flags, bytes, Ok(total))
  {
    CopyInto(out, HEADER_LEN, bytes);
    ghost var filled := out[..];
    Placed(old(out[..HEADER_LEN]), bytes, old(out[HEADER_LEN + |bytes|..]));
    WriteHeader(out, chan, flags, |bytes|);
    HeaderBefore(filled, Header(chan, flags, |bytes|), bytes, out[..]);
    assert out[..HEADER_LEN + |bytes|] == out[..][..HEADER_LEN + |bytes|];
    total := FinishFrame(out, HEADER_LEN + |bytes|);
  }

  lemma Placed(a: seq<u8>, bytes: seq<u8>, c: seq<u8>)
    ensures (a + bytes + c)[|a|..][..|bytes|] == bytes
  {
  }

  lemma HeaderBefore(filled: seq<u8>, header: seq<u8>, bytes: seq<u8>, now: seq<u8>)
    requires |header| + |bytes| <= |filled| && filled[|header|..][..|bytes|] == bytes
    requires now == header + filled[|header|..]
    ensures now[..|header| + |bytes|] == header + bytes
  {
  }

  method WriteMeshFrame(beacon: MeshBeacon, out: array<u8>) returns (r: Result<nat, IoError>)
    requires out.Length == MAX_DATAGRAM
    modifies out
    ensures Written(old(out[..]), out[..], Mesh, 0, BeaconImage(beacon), r)
  {
    var total := FrameInPlace(Mesh, 0, BeaconImage(beacon), out);
    r := Ok(total);
  }

  method WriteAckFrame(ack: AckFrame, out: array<u8>) returns (r: Result<nat, IoError>)
    requires out.Length == MAX_DATAGRAM
    modifies out
    ensures Written(old(out[..]), out[..], Control, 1, AckImage(ack), r)
  {
    var total := FrameInPlace(Control, 1, AckImage(ack), out);
    r := Ok(total);
  }

  method WriteIceFrame(bytes: seq<u8>, out: array<u8>) returns (r: Result<nat, IoError>)
    requires out.Length == MAX_DATAGRAM
    modifies out
    ensures Written(old(out[..]), out[..], Ice, 0, bytes, r)
  {
    if |bytes| > MAX_PAYLOAD { return Err(InvalidData); }
    var total := FrameInPlace(Ice, 0, bytes, out);
    r := Ok(total);
  }

  method WriteSecureFrame(sealed: seq<u8>, frameFlags: u8, out: array<u8>) returns (r: Result<nat, IoError>)
    requires out.Length == MAX_DATAGRAM
    modifies out
    ensures Written(old(out[..]), out[..], Secure, frameFlags, sealed, r)
  {
    if |sealed| > MAX_PAYLOAD { return Err(InvalidData); }
    var total := FrameInPlace(Secure, frameFlags, sealed, out);
    r := Ok(total);
  }

  // ---- what arrives is what was sent ----

  /** `buf` holds a frame in its first `n` bytes. */
  ghost predicate Holds(buf: seq<u8>, n: nat, chan: Channel, flags: u8, payload: seq<u8>) {
    && |payload| <= MAX_PAYLOAD && |buf| == MAX_DATAGRAM
    && n == HEADER_LEN + |payload| + TRAILER_LEN
    && buf[..n] == Frame(chan, flags, payload)
  }

  /** How a frame that was received whole is parsed, by its channel. */
  function Parsed(chan: Channel, flags: u8, payload: seq<u8>): Result<Inbound, FrameError> {
    match chan
    case Control => ControlPayload(flags, payload)
    case Telemetry => TelemetryPayload(payload)
    case Mesh => MeshPayload(payload)
    case Ice => Ok(IceIn(payload))
    case Secure => Ok(SecureIn(payload, flags))
    case Media => Err(PayloadError)
  }

  lemma HeldParses(buf: seq<u8>, n: nat, chan: Channel, flags: u8, payload: seq<u8>,
                   r: Result<Inbound, FrameError>)
    requires Holds(buf, n, chan, flags, payload) && Parsed(chan, flags, payload) == r
    ensures n <= MAX_DATAGRAM && Demux(buf, n) == r
  {
    FrameParses(buf, n, chan, flags, payload);
    DispatchIs(chan, flags, payload);
  }

  lemma DispatchIs(chan: Channel, flags: u8, payload: seq<u8>)
    ensures Dispatch(chan.AsU8(), flags, payload) == Parsed(chan, flags, payload)
  {
  }

  lemma WholeRoot(image: seq<u8>)
    ensures AccessRoot(image, |image|) == Some(image)
  {
    assert image[0..] == image;
  }

  lemma DispatchImage(flags: u8, image: seq<u8>)
    requires |image| == COMMAND_LEN
    ensures !AckFlag(flags) ==> ControlPayload(flags, image) == CommandPayload(flags, ReadCommand(image))
    ensures AckFlag(flags) ==> ControlPayload(flags, image).Ok? && ControlPayload(flags, image).value.AckIn?
  {
    WholeRoot(image);
  }

  lemma DispatchCommand(cmd: ControlCommand, flags: u8, image: seq<u8>)
    requires image == CommandImage(cmd) && cmd.crc == CommandCrc(cmd)
    ensures !AckFlag(flags) ==> ControlPayload(flags, image) == Ok(ControlIn(cmd, ReliableFlag(flags)))
    ensures AckFlag(flags) ==> ControlPayload(flags, image).Ok? && ControlPayload(flags, image).value.AckIn?
  {
    CommandRoundTrip(cmd, []);
    assert image + [] == image;
    DispatchImage(flags, image);
  }

  lemma DispatchTelemetry(pkt: TelemetryPacket, image: seq<u8>)
    requires image == TelemetryImage(pkt)
    ensures TelemetryPayload(image) == Ok(TelemetryIn(pkt))
  {
    TelemetryRoundTrip(pkt, []);
    assert image + [] == image;
    WholeRoot(image);
  }

  /** A beacon is accepted exactly when its magic and version are right. */
  function ReadBack(beacon: MeshBeacon): Result<Inbound, FrameError> {
    if beacon.magic == MESH_MAGIC && beacon.version == 1 then Ok(MeshIn(beacon)) else Err(PayloadError)
  }

  lemma DispatchBeacon(beacon: MeshBeacon, image: seq<u8>)
    requires image == BeaconImage(beacon)
    ensures MeshPayload(image) == ReadBack(beacon)
  {
    BeaconRoundTrip(beacon, []);
    assert image + [] == image;
  }

  lemma DispatchAck(ack: AckFrame, image: seq<u8>)
    requires image == AckImage(ack)
    ensures ControlPayload(1, image) == Ok(AckIn(ack))
  {
    AckRoundTrip(ack, []);
    assert image + [] == image;
  }

  /** A control frame comes back as the stamped command and its reliable flag exactly when the ACK
      flag is clear; with it set, the same bytes are taken for an acknowledgement. */
  lemma ControlRoundTrip(cmd: ControlCommand, flags: u8, buf: seq<u8>, n: nat)
    requires Holds(buf, n, Control, flags, CommandImage(Stamped(cmd)))
    ensures n <= MAX_DATAGRAM
    ensures !AckFlag(flags) <==> Demux(buf, n) == Ok(ControlIn(Stamped(cmd), ReliableFlag(flags)))
    ensures AckFlag(flags) ==> Demux(buf, n).Ok? && Demux(buf, n).value.AckIn?
  {
    var sent := Stamped(cmd);
    assert sent.(crc := 0) == cmd.(crc := 0);
    DispatchCommand(sent, flags, CommandImage(sent));
    HeldParses(buf, n, Control, flags, CommandImage(sent), ControlPayload(flags, CommandImage(sent)));
  }

  lemma TelemetryRoundTrips(pkt: TelemetryPacket, buf: seq<u8>, n: nat)
    requires Holds(buf, n, Telemetry, 0, TelemetryImage(pkt))
    ensures n <= MAX_DATAGRAM && Demux(buf, n) == Ok(TelemetryIn(pkt))
  {
    DispatchTelemetry(pkt, TelemetryImage(pkt));
    HeldParses(buf, n, Telemetry, 0, TelemetryImage(pkt), Ok(TelemetryIn(pkt)));
  }

  lemma MeshHeld(buf: seq<u8>, n: nat, image: seq<u8>, r: Result<Inbound, FrameError>)
    requires Holds(buf, n, Mesh, 0, image) && MeshPayload(image) == r
    ensures n <= MAX_DATAGRAM && Demux(buf, n) == r
  {
    HeldParses(buf, n, Mesh, 0, image, r);
  }

  lemma MeshRoundTrip(beacon: MeshBeacon, buf: seq<u8>, n: nat)
    requires Holds(buf, n, Mesh, 0, BeaconImage(beacon))
    ensures n <= MAX_DATAGRAM && Demux(buf, n) == ReadBack(beacon)
  {
    DispatchBeacon(beacon, BeaconImage(beacon));
    MeshHeld(buf, n, BeaconImage(beacon), ReadBack(beacon));
  }

  lemma AckRoundTrips(ack: AckFrame, buf: seq<u8>, n: nat)
    requires Holds(buf, n, Control, 1, AckImage(ack))
    ensures n <= MAX_DATAGRAM && Demux(buf, n) == Ok(AckIn(ack))
  {
    DispatchAck(ack, AckImage(ack));
    HeldParses(buf, n, Control, 1, AckImage(ack), Ok(AckIn(ack)));
  }

  /** Opaque payloads of any length up to the limit pass through whole. */
  lemma OpaqueRoundTrip(secure: bool, flags: u8, payload: seq<u8>, buf: seq<u8>, n: nat)
    requires Holds(buf, n, if secure then Secure else Ice, flags, payload)
    ensures n <= MAX_DATAGRAM
    ensures Demux(buf, n) == Ok(if secure then SecureIn(payload, flags) else IceIn(payload))
  {
    var chan := if secure then Secure else Ice;
    HeldParses(buf, n, chan, flags, payload, Parsed(chan, flags, payload));
  }
}
