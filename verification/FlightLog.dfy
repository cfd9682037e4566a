/** The flight data recorder: framing, sector staging and parsing. */
module FlightLog {
  import opened Bytes
  import Spsc
  import opened Words

  // Fixed-size frames are popped from a ring, staged into whole sectors of a direct-I/O file, closed by an
  // end marker and zero padding, and parsed back. The device is an append-only byte sequence that takes a
  // given number of sectors and then fails.

  const MAX_PAYLOAD: int := 512
  const ENTRY_LEN: int := 528
  const SECTOR: int := 4096
  const STAGING_CAP: int := 65536
  const END_KIND: u8 := 255

  // ---- frames ----

  datatype Kind = Control | Imu | Gps | Telemetry | End

  function ToU8(k: Kind): u8 {
    match k
    case Control => 0
    case Imu => 1
    case Gps => 2
    case Telemetry => 3
    case End => END_KIND
  }

  function KindOf(v: u8): Option<Kind> {
    if v == 0 then Some(Control)
    else if v == 1 then Some(Imu)
    else if v == 2 then Some(Gps)
    else if v == 3 then Some(Telemetry)
    else if v == END_KIND then Some(End)
    else None
  }

  type Payload = p: seq<u8> | |p| == MAX_PAYLOAD witness seq(MAX_PAYLOAD, i => 0)

  datatype Entry = Entry(
    timestampNs: u64, payloadLen: u16, kind: u8, pad: u8, reserved: u32, payload: Payload)

  datatype RecordError = Full | PayloadTooLarge(got: nat, max: nat)

  datatype IoError = IoError

  function Zeros(n: nat): seq<u8> { seq(n, i => 0) }

  function NewEntry(kind: Kind, payload: seq<u8>, timestampNs: u64): (r: Result<Entry, RecordError>)
    ensures r.Err? <==> |payload| > MAX_PAYLOAD
    ensures r.Ok? ==>
              && KindOf(r.value.kind) == Some(kind) && r.value.timestampNs == timestampNs
              && r.value.payloadLen <= MAX_PAYLOAD && r.value.payload[..r.value.payloadLen] == payload
  {
    if |payload| > MAX_PAYLOAD then Err(PayloadTooLarge(|payload|, MAX_PAYLOAD))
    else Ok(Entry(timestampNs, |payload|, ToU8(kind), 0, 0, payload + Zeros(MAX_PAYLOAD - |payload|)))
  }

  predicate IsEnd(e: Entry) { KindOf(e.kind) == Some(End) }

  function EndFrame(): Entry { NewEntry(End, [], 0).value }

  // ---- the image of a frame ----

  function HeaderWidths(): seq<nat> { [8, 2, 1, 1, 4] }

  function HeaderOf(e: Entry): seq<nat> { [e.timestampNs, e.payloadLen, e.kind, e.pad, e.reserved] }

  function HeaderLen(): (n: nat)
    ensures n == Total(HeaderWidths()) == 16
  {
    HeaderTotal(HeaderWidths());
    16
  }

  lemma HeaderTotal(w: seq<nat>)
    requires w == HeaderWidths()
    ensures Total(w) == 16
  {
    assert w[1..] == [2, 1, 1, 4] && w[1..][1..] == [1, 1, 4];
    assert [1, 1, 4 as nat][1..] == [1, 4] && [1, 4 as nat][1..] == [4] && [4 as nat][1..] == [];
    assert Total([4]) == 4 && Total([1, 4]) == 5 && Total([1, 1, 4]) == 6 && Total([2, 1, 1, 4]) == 8;
  }

  function Image(e: Entry): (b: seq<u8>)
    ensures |b| == ENTRY_LEN
  {
    var _ := HeaderLen();
    Pack(HeaderWidths(), HeaderOf(e)) + e.payload
  }

  /** Any `ENTRY_LEN` bytes are the image of some frame. */
  function FromImage(b: seq<u8>): Entry
    requires |b| == ENTRY_LEN
  {
    var n := HeaderLen();
    var h := Unpack(HeaderWidths(), b[..n]);
    HeaderFields(b[..n]);
    Entry(h[0], h[1], h[2], h[3], h[4], b[n..])
  }

  lemma HeaderFields(b: seq<u8>)
    requires |b| == Total(HeaderWidths())
    ensures var h := Unpack(HeaderWidths(), b);
            |h| == 5 && h[0] < U64_SIZE && h[1] < 0x1_0000 && h[2] < 256 && h[3] < 256 && h[4] < U32_SIZE
  {
    Widths();
    UnpackFits(HeaderWidths(), b);
    var h := Unpack(HeaderWidths(), b);
    assert h[0] < Pow256(HeaderWidths()[0]) && h[1] < Pow256(HeaderWidths()[1]);
    assert h[2] < Pow256(HeaderWidths()[2]) && h[3] < Pow256(HeaderWidths()[3]) && h[4] < Pow256(HeaderWidths()[4]);
  }

  /** Frames and images are in one-to-one correspondence. */
  lemma ImageRoundTrip(e: Entry)
    ensures FromImage(Image(e)) == e
  {
    var n, w, h := HeaderLen(), HeaderWidths(), HeaderOf(e);
    Widths();
    assert Fits(w, h);
    UnpackPack(w, h, []);
    assert Image(e)[..n] == Pack(w, h) == Pack(w, h) + [];
    assert Image(e)[n..] == e.payload;
  }

  function Images(frames: seq<Entry>): (b: seq<u8>)
    ensures |b| == ENTRY_LEN * |frames|
    decreases frames
  {
    if frames == [] then [] else Image(frames[0]) + Images(frames[1..])
  }

  lemma {:induction false} ImagesAppend(frames: seq<Entry>, more: seq<Entry>)
    ensures Images(frames + more) == Images(frames) + Images(more)
    decreases frames
  {
    if frames == [] {
      assert frames + more == more;
    } else {
      ImagesAppend(frames[1..], more);
      assert (frames + more)[1..] == frames[1..] + more;
    }
  }

  lemma ImagesPush(frames: seq<Entry>, e: Entry)
    ensures Images(frames + [e]) == Images(frames) + Image(e)
  {
    ImagesAppend(frames, [e]);
    assert [e][1..] == [] && Images([e]) == Image(e) + [];
  }

  // ---- parsing ----

  /** The frames read from a byte string: whole ones only, up to an end marker. */
  function Parse(data: seq<u8>): (frames: seq<Entry>)
    ensures ENTRY_LEN * |frames| <= |data|
    decreases |data|
  {
    if |data| < ENTRY_LEN then []
    else
      var e := FromImage(data[..ENTRY_LEN]);
      if IsEnd(e) then [] else [e] + Parse(data[ENTRY_LEN..])
  }

  method ParseEntries(data: seq<u8>) returns (out: seq<Entry>)
    ensures out == Parse(data)
  {
    out := [];
    var off := 0;
    ghost var rest := data;
    while off + ENTRY_LEN <= |data|
      invariant 0 <= off <= |data| && rest == data[off..]
      invariant out + Parse(rest) == Parse(data)
    {
      var part := data[off..off + ENTRY_LEN];
      ParseAt(data, off, rest, part);
      var e := FromImage(part);
      if IsEnd(e) { return; }
      rest := rest[ENTRY_LEN..];
      AppendOne(out, e, Parse(rest));
      out := out + [e];
      off := off + ENTRY_LEN;
    }
  }

  lemma ParseAt(data: seq<u8>, off: nat, rest: seq<u8>, part: seq<u8>)
    requires off + ENTRY_LEN <= |data| && rest == data[off..] && part == data[off..off + ENTRY_LEN]
    ensures rest[ENTRY_LEN..] == data[off + ENTRY_LEN..]
    ensures Parse(rest) == if IsEnd(FromImage(part)) then [] else [FromImage(part)] + Parse(rest[ENTRY_LEN..])
  {
    assert rest[..ENTRY_LEN] == part;
  }

  lemma AppendOne(out: seq<Entry>, e: Entry, rest: seq<Entry>)
    ensures (out + [e]) + rest == out + ([e] + rest)
  {
  }

  /** The frames before the first one that is itself an end marker. */
  function UpToEnd(frames: seq<Entry>): (r: seq<Entry>)
    ensures r <= frames
    ensures r == frames <==> forall i :: 0 <= i < |frames| ==> !IsEnd(frames[i])
    decreases frames
  {
    if frames == [] || IsEnd(frames[0]) then [] else [frames[0]] + UpToEnd(frames[1..])
  }

  lemma ParseFrame(e: Entry, rest: seq<u8>)
    ensures Parse(Image(e) + rest) == if IsEnd(e) then [] else [e] + Parse(rest)
  {
    var data := Image(e) + rest;
    ImageRoundTrip(e);
    assert data[..ENTRY_LEN] == Image(e) && data[ENTRY_LEN..] == rest;
  }

  /** Cutting a stream anywhere loses exactly the frames that are no longer whole. */
  lemma {:induction false} ParseTruncated(data: seq<u8>, n: nat, parsed: seq<Entry>)
    requires n <= |data| && parsed == Parse(data)
    ensures Parse(data[..n]) == parsed[..Min(n / ENTRY_LEN, |parsed|)]
    decreases |data|
  {
    if n >= ENTRY_LEN && parsed != [] {
      assert data[..n][..ENTRY_LEN] == data[..ENTRY_LEN];
      assert data[..n][ENTRY_LEN..] == data[ENTRY_LEN..][..n - ENTRY_LEN];
      ParseTruncated(data[ENTRY_LEN..], n - ENTRY_LEN, parsed[1..]);
      assert (n - ENTRY_LEN) / ENTRY_LEN == n / ENTRY_LEN - 1;
    } else if n >= ENTRY_LEN {
      assert data[..n][..ENTRY_LEN] == data[..ENTRY_LEN];
    }
  }

  /** Parsing a stream of frames with an end marker after them. */
  lemma {:induction false} ParseStream(frames: seq<Entry>, mark: Entry, rest: seq<u8>, parsed: seq<Entry>)
    requires IsEnd(mark) && parsed == Parse(Images(frames) + (Image(mark) + rest))
    ensures parsed == UpToEnd(frames)
    decreases frames
  {
    var tail := Image(mark) + rest;
    if frames == [] {
      assert Images(frames) + tail == tail;
      ParseFrame(mark, rest);
    } else {
      var more := Images(frames[1..]) + tail;
      assert Images(frames) + tail == Image(frames[0]) + more;
      ParseFrame(frames[0], more);
      ParseStream(frames[1..], mark, rest, Parse(more));
    }
  }

  // ---- the file a run leaves ----

  function Padding(len: nat): (k: nat)
    ensures k < SECTOR && (len + k) % SECTOR == 0
  {
    (SECTOR - len % SECTOR) % SECTOR
  }

  /** The frames, the end marker, and zeros to the end of the last sector. */
  function LogFile(frames: seq<Entry>): (b: seq<u8>)
    ensures |b| % SECTOR == 0
  {
    var body := Images(frames) + Image(EndFrame());
    body + Zeros(Padding(|body|))
  }

  lemma ParseLog(frames: seq<Entry>)
    ensures Parse(LogFile(frames)) == UpToEnd(frames)
  {
    var pad := Zeros(Padding(|Images(frames) + Image(EndFrame())|));
    assert LogFile(frames) == Images(frames) + (Image(EndFrame()) + pad);
    ParseStream(frames, EndFrame(), pad, Parse(LogFile(frames)));
  }

  /** A whole log gives back its frames exactly when none of them is of the kind kept for the marker. */
  lemma LogRoundTrip(frames: seq<Entry>)
    ensures Parse(LogFile(frames)) == frames <==> forall i :: 0 <= i < |frames| ==> !IsEnd(frames[i])
  {
    ParseLog(frames);
  }

  /** What a failed or interrupted run leaves still gives back every frame that is whole in it. */
  lemma LogPrefix(frames: seq<Entry>, file: seq<u8>, found: seq<Entry>)
    requires file <= LogFile(frames) && found == Parse(file)
    ensures found == UpToEnd(frames)[..Min(|file| / ENTRY_LEN, |UpToEnd(frames)|)]
    ensures found <= frames
  {
    ParseLog(frames);
    ParsePrefix(LogFile(frames), file, UpToEnd(frames), found);
    TakeBelow(found, UpToEnd(frames), frames);
  }

  lemma ParsePrefix(log: seq<u8>, file: seq<u8>, parsed: seq<Entry>, found: seq<Entry>)
    requires file <= log && parsed == Parse(log) && found == Parse(file)
    ensures found == parsed[..Min(|file| / ENTRY_LEN, |parsed|)] <= parsed
  {
    assert log[..|file|] == file;
    ParseTruncated(log, |file|, parsed);
  }

  lemma TakeBelow(a: seq<Entry>, b: seq<Entry>, c: seq<Entry>)
    requires a <= b <= c
    ensures a <= c
  {
  }

  // ---- the sector-staged file ----

  class DirectFile {
    const staging: array<u8>
    const limit: nat               // sectors the device takes before it fails
    var stagingLen: nat
    var written: nat
    ghost var disk: seq<u8>

    ghost predicate Valid()
      reads this
    {
      && staging.Length == STAGING_CAP && stagingLen <= STAGING_CAP
      && written == |disk| && written % SECTOR == 0 && written <= limit * SECTOR
    }

    /** Everything accepted so far: on the device, then in the staging buffer. */
    ghost function Contents(): seq<u8>
      requires Valid()
      reads this, staging
    {
      disk + staging[..stagingLen]
    }

    constructor (limit: nat)
      ensures Valid() && fresh(staging) && this.limit == limit && Contents() == [] && stagingLen == 0
    {
      this.limit := limit;
      staging := new u8[STAGING_CAP];
      stagingLen, written, disk := 0, 0, [];
    }

    /** Writes the leading sector of the staging buffer. */
    method WriteBlock() returns (ok: bool)
      requires Valid()
      modifies this`disk, this`written
      ensures ok <==> old(written) < limit * SECTOR
      ensures disk == if ok then old(disk) + staging[..SECTOR] else old(disk)
      ensures Valid()
    {
      ok := written / SECTOR < limit;
      if ok {
        disk := disk + staging[..SECTOR];
        written := written + SECTOR;
      }
    }

    /** Writes the leading sector and moves the rest of the staging buffer down. */
    method PushSector() returns (ok: bool)
      requires Valid() && stagingLen >= SECTOR
      modifies this, staging
      ensures Valid() && Contents() == old(Contents())
      ensures ok <==> old(written) < limit * SECTOR
      ensures stagingLen == old(stagingLen) - (if ok then SECTOR else 0)
      ensures written == old(written) + (if ok then SECTOR else 0) && old(disk) <= disk
    {
      ok := WriteBlock();
      if ok {
        var rem := stagingLen - SECTOR;
        ghost var before := staging[..];
        forall i | 0 <= i < rem {
          staging[i] := staging[i + SECTOR];
        }
        stagingLen := rem;
        assert staging[..rem] == before[SECTOR..SECTOR + rem];
        assert before[..SECTOR] + before[SECTOR..SECTOR + rem] == before[..SECTOR + rem];
        assert Contents() == old(disk) + (before[..SECTOR] + before[SECTOR..SECTOR + rem]);
      }
    }

    /** Copies `data` to the end of the staging buffer. */
    method Stage(data: seq<u8>)
      requires Valid() && |data| <= STAGING_CAP - stagingLen
      modifies this`stagingLen, staging
      ensures Valid() && Contents() == old(Contents()) + data && stagingLen == old(stagingLen) + |data|
    {
      ghost var before := staging[..stagingLen];
      forall i | 0 <= i < |data| {
        staging[stagingLen + i] := data[i];
      }
      stagingLen := stagingLen + |data|;
      assert staging[..stagingLen] == before + data;
      assert disk + before + data == disk + (before + data);
    }

    /** Writes every whole sector staged. */
    method DrainSectors() returns (r: Result<(), IoError>)
      requires Valid()
      modifies this, staging
      ensures Valid() && Contents() == old(Contents()) && old(disk) <= disk && stagingLen <= old(stagingLen)
      ensures r.Ok? <==> |old(Contents())| / SECTOR <= limit
      ensures if r.Ok? then stagingLen < SECTOR else written == limit * SECTOR
    {
      while stagingLen >= SECTOR
        invariant Valid() && Contents() == old(Contents()) && old(disk) <= disk && stagingLen <= old(stagingLen)
      {
        var ok := PushSector();
        if !ok {
          return Err(IoError);
        }
      }
      r := Ok(());
    }

    /** Appends `data`. Whole sectors go to the device; on failure what is accepted is a prefix. */
    method Write(data: seq<u8>) returns (r: Result<(), IoError>)
      requires Valid()
      modifies this, staging
      ensures Valid() && old(disk) <= disk
      ensures r.Ok? <==> data == [] || (|old(Contents())| + |data|) / SECTOR <= limit
      ensures r.Ok? ==> Contents() == old(Contents()) + data && (data != [] ==> stagingLen < SECTOR)
      ensures r.Err? ==> old(Contents()) <= Contents() <= old(Contents()) + data && written == limit * SECTOR
    {
      var k := 0;
      while k < |data|
        invariant 0 <= k <= |data| && Valid() && old(disk) <= disk
        invariant Contents() == old(Contents()) + data[..k]
        invariant k > 0 ==> stagingLen < SECTOR
        invariant k > 0 ==> |Contents()| / SECTOR <= limit
        decreases |data| - k, stagingLen
      {
        var take := Min(STAGING_CAP - stagingLen, |data| - k);
        Stage(data[k..k + take]);
        Appended(old(Contents()), data, k, take);
        k := k + take;
        var drained := DrainSectors();
        if drained.Err? {
          return drained;
        }
      }
      r := Ok(());
    }

    /** Zero-fills and writes the last partial sector. */
    method Flush(flushOk: bool) returns (r: Result<(), IoError>)
      requires Valid() && stagingLen < SECTOR
      modifies this, staging
      ensures Valid() && old(disk) <= disk
      ensures r.Ok? <==> flushOk && (|old(Contents())| + SECTOR - 1) / SECTOR <= limit
      ensures r.Ok? ==> disk == old(Contents()) + Zeros(Padding(|old(Contents())|)) && stagingLen == 0
      ensures r.Err? ==> disk <= old(Contents()) + Zeros(Padding(|old(Contents())|))
    {
      if stagingLen > 0 {
        ghost var before := staging[..stagingLen];
        forall i | stagingLen <= i < SECTOR {
          staging[i] := 0;
        }
        assert staging[..SECTOR] == before + Zeros(SECTOR - stagingLen);
        assert Padding(|old(Contents())|) == SECTOR - stagingLen;
        var ok := WriteBlock();
        if !ok {
          return Err(IoError);
        }
        assert disk == old(disk) + (before + Zeros(SECTOR - stagingLen));
        stagingLen := 0;
      }
      r := if flushOk then Ok(()) else Err(IoError);
    }
  }

  lemma Appended(have: seq<u8>, data: seq<u8>, k: nat, take: nat)
    requires k + take <= |data|
    ensures have + data[..k + take] == have + data[..k] + data[k..k + take]
  {
    assert data[..k + take] == data[..k] + data[k..k + take];
  }

  // ---- producer and storage thread ----

  /** What the ring accepts of the frames offered before each drain: the first drain finds `room` free
      slots, the later ones an empty ring. */
  function Accepted(turns: seq<seq<Entry>>, room: nat, cap: nat): seq<Entry>
    decreases turns
  {
    if turns == [] then [] else turns[0][..Min(|turns[0]|, room)] + Accepted(turns[1..], cap, cap)
  }

  class FdrSink {
    const ring: Spsc.SpscRing<Entry>

    constructor (ring: Spsc.SpscRing<Entry>)
      ensures this.ring == ring
    {
      this.ring := ring;
    }

    /** Publishes one frame; a full ring sheds it. */
    method TryRecord(kind: Kind, payload: seq<u8>, timestampNs: u64) returns (r: Result<(), RecordError>)
      requires ring.Valid()
      modifies ring`tail, ring.slots
      ensures ring.Valid()
      ensures r.Err? ==> ring.Contents() == old(ring.Contents())
      ensures r.Err? <==> |payload| > MAX_PAYLOAD || |old(ring.Contents())| == ring.slots.Length
      ensures r.Err? ==> (r.error.PayloadTooLarge? <==> |payload| > MAX_PAYLOAD)
      ensures r.Ok? ==> ring.Contents() == old(ring.Contents()) + [NewEntry(kind, payload, timestampNs).value]
    {
      var e := NewEntry(kind, payload, timestampNs);
      if e.Err? {
        return Err(e.error);
      }
      var pushed := ring.Push(e.value);
      r := if pushed.Err? then Err(Full) else Ok(());
    }
  }

  class FdrWriter {
    const ring: Spsc.SpscRing<Entry>
    const file: DirectFile
    ghost var popped: seq<Entry>

    /** The file holds the popped frames, all of them or, after a failed write, a prefix of the bytes. */
    ghost predicate Valid()
      reads this, ring, ring.slots, file, file.staging
    {
      ring.Valid() && file.Valid() && file.Contents() <= Images(popped)
    }

    constructor (ring: Spsc.SpscRing<Entry>, limit: nat)
      requires ring.Valid()
      ensures this.ring == ring && fresh(file) && fresh(file.staging) && file.limit == limit
      ensures Valid() && popped == [] && file.Contents() == [] && file.stagingLen == 0
    {
      this.ring := ring;
      file := new DirectFile(limit);
      popped := [];
    }

    /** No write has failed: the file holds all of the popped frames. */
    ghost predicate InStep()
      reads this, ring, ring.slots, file, file.staging
    {
      Valid() && file.Contents() == Images(popped) && file.stagingLen < SECTOR
    }

    /** Pops one frame, if there is one, and writes it. */
    method WriteNext() returns (r: Result<bool, IoError>)
      requires InStep()
      modifies this`popped, ring`head, file, file.staging
      ensures Valid() && old(file.disk) <= file.disk
      ensures popped + ring.Contents() == old(popped + ring.Contents())
      ensures old(ring.Contents()) == [] <==> r == Ok(false)
      ensures |ring.Contents()| == |old(ring.Contents())| - (if r == Ok(false) then 0 else 1)
      ensures if r.Ok? then InStep() else |Images(popped)| / SECTOR > file.limit
    {
      ghost var queue := ring.Contents();
      var e := ring.Pop();
      if e.None? {
        return Ok(false);
      }
      PopMoves(popped, queue);
      ImagesPush(popped, e.value);
      popped := popped + [e.value];
      var w := file.Write(Image(e.value));
      r := if w.Ok? then Ok(true) else Err(IoError);
    }

    /** Pops and writes until the ring is empty. */
    method DrainOnce() returns (r: Result<nat, IoError>)
      requires InStep()
      modifies this`popped, ring`head, file, file.staging
      ensures Valid() && old(file.disk) <= file.disk
      ensures popped + ring.Contents() == old(popped + ring.Contents())
      ensures r.Ok? ==> InStep() && ring.Contents() == [] && r.value == |old(ring.Contents())|
      ensures r.Err? ==> |Images(popped)| / SECTOR > file.limit
    {
      var n := 0;
      while true
        invariant InStep() && old(file.disk) <= file.disk
        invariant popped + ring.Contents() == old(popped + ring.Contents())
        invariant n + |ring.Contents()| == |old(ring.Contents())|
        decreases |ring.Contents()|
      {
        var wrote := WriteNext();
        if wrote.Err? {
          return Err(IoError);
        }
        if !wrote.value {
          break;
        }
        n := n + 1;
      }
      r := Ok(n);
    }

    /** Writes the end marker and flushes. */
    method Close(flushOk: bool) returns (r: Result<nat, IoError>)
      requires InStep()
      modifies file, file.staging
      ensures file.Valid() && file.disk <= LogFile(popped)
      ensures r.Ok? ==> file.disk == LogFile(popped) && r.value == |file.disk|
      ensures r.Ok? <==> flushOk && |LogFile(popped)| / SECTOR <= file.limit
    {
      var w := file.Write(Image(EndFrame()));
      if w.Err? {
        return Err(IoError);
      }
      var f := file.Flush(flushOk);
      if f.Err? {
        return Err(IoError);
      }
      r := Ok(file.written);
    }

    /** One turn of the storage thread: what the producer offers, as far as it fits, then a drain. */
    method Turn(offer: seq<Entry>) returns (r: Result<nat, IoError>)
      requires InStep()
      modifies this`popped, ring, ring.slots, file, file.staging
      ensures Valid() && |old(ring.Contents())| <= ring.slots.Length
      ensures popped <= Took(old(popped), old(ring.Contents()), offer, ring.slots.Length)
      ensures r.Ok? ==>
                && popped == Took(old(popped), old(ring.Contents()), offer, ring.slots.Length)
                && InStep() && ring.Contents() == []
                && (r.value == 0 <==> old(ring.Contents()) == [] && offer[..Min(|offer|, ring.slots.Length)] == [])
      ensures r.Err? ==> |Images(popped)| / SECTOR > file.limit
    {
      ghost var queue := ring.Contents();
      var taken := ring.PushSlice(offer);
      TookIs(popped, queue, offer, taken, ring.slots.Length);
      r := DrainOnce();
    }

    /** A turn towards `goal`, what the turns of `left` come to in the end. */
    method TurnOf(offer: seq<Entry>, ghost left: seq<seq<Entry>>, ghost goal: seq<Entry>) returns (r: Result<nat, IoError>)
      requires InStep() && |ring.Contents()| <= ring.slots.Length
      requires offer == (if left == [] then [] else left[0])
      requires goal == Offered(popped, ring.Contents(), left, ring.slots.Length)
      modifies this`popped, ring, ring.slots, file, file.staging
      ensures Valid() && popped <= goal
      ensures r.Ok? ==>
                && InStep() && ring.Contents() == []
                && goal == Offered(popped, [], if left == [] then [] else left[1..], ring.slots.Length)
                && (offer == [] ==> (r.value == 0 <==> old(ring.Contents()) == []))
      ensures r.Err? ==> |Images(popped)| / SECTOR > file.limit
    {
      OfferedMoves(popped, ring.Contents(), left, offer, ring.slots.Length);
      r := Turn(offer);
    }

    /** Drains until told to stop with nothing left. Before the `i`-th drain the producer offers
        `turns[i]`; the stop flag is set once it has offered them all. */
    method Serve(turns: seq<seq<Entry>>) returns (r: Result<(), IoError>)
      requires InStep()
      modifies this`popped, ring, ring.slots, file, file.staging
      ensures Valid() && |old(ring.Contents())| <= ring.slots.Length
      ensures popped <= Offered(old(popped), old(ring.Contents()), turns, ring.slots.Length)
      ensures r.Ok? ==> InStep() && popped == Offered(old(popped), old(ring.Contents()), turns, ring.slots.Length)
      ensures r.Err? ==> |Images(popped)| / SECTOR > file.limit
    {
      var i := 0;
      ghost var left, cap := turns, ring.slots.Length;
      ghost var goal := Offered(popped, ring.Contents(), turns, cap);
      while true
        invariant InStep() && 0 <= i <= |turns| && |ring.Contents()| <= cap && left == turns[i..]
        invariant Offered(popped, ring.Contents(), left, cap) == goal
        decreases |turns| - i, |ring.Contents()|
      {
        var offer := if i < |turns| then turns[i] else [];
        LeftMoves(turns, i, left);
        if i < |turns| { i := i + 1; }
        var n := TurnOf(offer, left, goal);
        left := if left == [] then [] else left[1..];
        if n.Err? {
          return Err(IoError);
        }
        if n.value == 0 && i == |turns| {
          NothingLeft(popped, left, cap);
          return Ok(());
        }
      }
    }

    /** The storage thread from start to finish. */
    method Run(turns: seq<seq<Entry>>, flushOk: bool) returns (r: Result<nat, IoError>)
      requires InStep()
      modifies this`popped, ring, ring.slots, file, file.staging
      ensures ring.Valid() && file.Valid() && file.disk <= LogFile(popped)
      ensures |old(ring.Contents())| <= ring.slots.Length
      ensures popped <= Offered(old(popped), old(ring.Contents()), turns, ring.slots.Length)
      ensures r.Ok? ==>
                && popped == Offered(old(popped), old(ring.Contents()), turns, ring.slots.Length)
                && file.disk == LogFile(popped) && r.value == |file.disk|
      ensures r.Ok? <==> flushOk && |LogFile(popped)| / SECTOR <= file.limit
    {
      var served := Serve(turns);
      if served.Err? {
        LogCovers(popped);
        return Err(IoError);
      }
      r := Close(flushOk);
    }
  }

  /** Frames popped or queued once a ring of `cap` slots has been offered `offer`. */
  ghost function Took(popped: seq<Entry>, queue: seq<Entry>, offer: seq<Entry>, cap: nat): seq<Entry>
    requires |queue| <= cap
  {
    popped + (queue + offer[..Min(|offer|, cap - |queue|)])
  }

  /** Frames popped, queued, and still to be accepted. */
  ghost function Offered(popped: seq<Entry>, queue: seq<Entry>, turns: seq<seq<Entry>>, cap: nat): seq<Entry>
    requires |queue| <= cap
  {
    popped + queue + Accepted(turns, cap - |queue|, cap)
  }

  lemma TookIs(popped: seq<Entry>, queue: seq<Entry>, offer: seq<Entry>, taken: nat, cap: nat)
    requires |queue| <= cap && taken == Min(|offer|, cap - |queue|)
    ensures popped + (queue + offer[..taken]) == Took(popped, queue, offer, cap)
  {
  }

  lemma NothingLeft(popped: seq<Entry>, turns: seq<seq<Entry>>, cap: nat)
    requires turns == []
    ensures Offered(popped, [], turns, cap) == popped
  {
  }

  lemma LeftMoves(turns: seq<seq<Entry>>, i: nat, left: seq<seq<Entry>>)
    requires i <= |turns| && left == turns[i..]
    ensures left == [] <==> i == |turns|
    ensures left != [] ==> left[0] == turns[i] && left[1..] == turns[i + 1..]
  {
  }

  lemma OfferedMoves(popped: seq<Entry>, queue: seq<Entry>, turns: seq<seq<Entry>>, offer: seq<Entry>, cap: nat)
    requires |queue| <= cap && offer == (if turns == [] then [] else turns[0])
    ensures Offered(popped, queue, turns, cap)
            == Offered(Took(popped, queue, offer, cap), [], if turns == [] then [] else turns[1..], cap)
    ensures Took(popped, queue, offer, cap) <= Offered(popped, queue, turns, cap)
  {
  }

  lemma PopMoves(popped: seq<Entry>, queue: seq<Entry>)
    requires queue != []
    ensures popped + [queue[0]] + queue[1..] == popped + queue
  {
  }

  /** A log is no shorter than its frames. */
  lemma LogCovers(frames: seq<Entry>)
    ensures Images(frames) <= LogFile(frames) && |Images(frames)| / SECTOR <= |LogFile(frames)| / SECTOR
  {
  }
}
