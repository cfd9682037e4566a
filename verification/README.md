# Verified model of the tpt-t tele-operation stack

This project models the parts of the tele-operation stack that keep real state and proves what they
promise over every input and every run.

- **Selective-repeat transport** (`Reliable.dfy`, `ReliableLink.dfy`, `ReliableRuns.dfy`,
  `ReliableWedge.dfy`). The sender's window of retained frames and the receiver's 32-slot reorder buffer
  are classes over fixed slot arrays, proved against functions on their states. `ReliableLink` puts one of
  each at the ends of a network that loses, duplicates and reorders frames and acknowledgements, with
  32-bit sequence words that wrap.
- **Lock-free queues and the buffer pool** (`Mpmc.dfy`, `MpmcRuns.dfy`, `MpmcOneCell.dfy`,
  `MpmcRing.dfy`, `Spsc.dfy`, `Pool.dfy`, `PoolSteps.dfy`, `PoolLeak.dfy`). Every atomic load,
  compare-and-swap, cell write and publish is one step, and any number of threads interleave;
  compare-and-swap may fail spuriously. Beside the steps stand the objects for calls that do not overlap.
- **Link framing** (`Bytes.dfy`, `Crc.dfy`, `CrcRemainder.dfy`, `Wire.dfy`, `Mux.dfy`). The CRC-32 of section
  3.2.9 of IEEE 802.3 as a one-bit shift register, as the table-driven loop and as the remainder of a
  polynomial division; the fixed-layout structs, the frame writers and the parser.
- **Three small structures and two controllers** (`Mesh.dfy`, `Uring.dfy`, `Backpressure.dfy`,
  `Governor.dfy`). The open-addressed neighbour table against a bounded map, the index-linked free list of
  transmit slots, the token bucket, and the encoder governor.
- **Safety loop** (`Safety.dfy`, `SafetySteps.dfy`, `SafetyRuns.dfy`, `SafetyLoop.dfy`). Latency
  compensation, authority blend, veto, geofence, kinematic limits and predictive brake over reals, the
  operations of the loop, what holds over whole runs, and the loop object between its two rings.
- **JSON codec** (`Json.dfy`, `JsonRoundTrip.dfy`, `JsonCode.dfy`). Printer and parser as functions, and the
  loops of the code proved against them (sections 4 to 7 of RFC 8259).
- **Flight log** (`FlightLog.dfy`). Frames popped from a ring, staged in whole sectors, closed by an end
  marker and zero padding, and parsed back; the device may fail at any sector.

`Words.dfy` holds machine words, power-of-two sizes and the modular arithmetic behind masked indices.

## Where the code falls short of what it promises

Each of these is a theorem of the model, with the exact condition under which the promise holds.

- An acknowledgement a full window ahead is ignored (crates/tpt-t-link/src/reliable.rs:194). `CoveredFreed`
  gives the condition; `WedgeReachable` shows that losing the acknowledgements of one window of frames
  reaches, for every window size, a state that `WedgeForever` proves no step can leave. Short of that a fresh
  acknowledgement always opens the window again (`FreshAck`).
- A frame sent at time 0 or with an empty payload is never retransmitted
  (crates/tpt-t-link/src/reliable.rs:174, 229): `Recovery`, `TickOutExact`.
- With one cell the multi-producer queue overwrites an element and then never returns one
  (`OneCellOverwrites`, `OneCellStuck`); `CapacityBound` shows two cells to be the exact condition. A pool
  of one slot is nevertheless sound (`Exclusivity`, `Accounting` and `LostWhen` hold for every size).
- Dropping a guard loses its slot when the free list reports "full" because a thread in `get_with` has
  stalled (crates/tpt-t-core/src/pool.rs:107-111): `LostWhen` is the condition, `LeakRun` a run.
- A control frame sent with the ACK flag is taken for an acknowledgement
  (crates/tpt-t-link/src/mux.rs:599-661): `ControlRoundTrip`.
- Strings that are not ASCII come back with each UTF-8 byte as one character
  (crates/tpt-t-cloud/src/json.rs:296-299): `RoundTrip` holds exactly for ASCII.
- `expire` empties slots without a tombstone, so a survivor can become unreachable
  (crates/tpt-t-link/src/mesh.rs:275-287): `SurvivorFound` is the condition, `HiddenSurvivor` a run of
  the table.
- Transmit slots from index 65535 on can never be staged, since that index is the "no slot" sentinel
  (crates/tpt-t-link/src/uring.rs:86-90): `Stage` is refused exactly when no free slot below it is left, while
  `Available` still counts those beyond. The constructor would have to get so many slots past the kernel first,
  and kernels refuse submission queues above 32768 entries.
- `refill` floors to whole bytes although its documentation calls the accrual lossless
  (crates/tpt-t-link/src/backpressure.rs:14-15, 212-213): `SplitRefill` is the condition, `TokensDelivered`
  bounds the loss over a run by a byte a refill, and `Starved` shows that a bucket polled often enough earns
  nothing. Near a capacity of 2^51 its sums wrap
  (`RefillNeverWraps`); above 2^64 / 10000 the suggested bitrate does (`NormalIsCapacity`).
- `request_mode` starts no blend when the running one happens to pass the new target, and the old blend
  goes on past it (crates/tpt-t-safety/src/loop_.rs:148-159): `ModeReached`, `RequestSwallowed`. A tick with a
  command advances the blend twice (`BlendReaches`). A mode request for emergency stop only hands over
  to the autonomy: it changes neither the latch nor the override of any later run (`RequestedStop`).
- A hard breach does not remove all outward motion, although the documentation of `clamp_command` says so
  (crates/tpt-t-safety/src/geo.rs:101-122): `BreachOutward` is the condition on pose and command,
  `BreachStillOutward` an input. In the loop this reaches no output, since the tick that meets a hard breach puts
  out the emergency command (`StopExactly`, `OverrideExactly`).
- A frame recorded with the kind of the end marker ends the parsed log early
  (crates/tpt-t-analytics/src/record.rs:352-354): `LogRoundTrip`.

## Model

| member | source | states |
|---|---|---|
| `Reliable.Tx.SlotOwner` | crates/tpt-t-link/src/reliable.rs:168-184 | the only retained frame in the slot of an in-window sequence is that sequence's own |
| `Reliable.Tx.SendKeepsOthers` | crates/tpt-t-link/src/reliable.rs:168-184 | an accepted send keeps every live slot at its masked index inside the window and overwrites no other retained frame |
| `Reliable.AckExactness` | crates/tpt-t-link/src/reliable.rs:67-77 | for every ack and state, `on_ack` frees a live frame exactly if `covers` accepts it, it is not the base itself, and the gap is below the window or the frame is ahead of the base |
| `Reliable.AckKeepsValid` | crates/tpt-t-link/src/reliable.rs:189-222 | whatever an ack says, live slots stay at their masked indices within the moved window |
| `Reliable.CoveredFreed` | crates/tpt-t-link/src/reliable.rs:187-222 | every covered frame is freed, exactly unless the base is a full window ahead with a retained frame behind it |
| `Reliable.Tx.TickOutExact` | crates/tpt-t-link/src/reliable.rs:226-240 | `tick` emits exactly the overdue stamped frames, unaltered |
| `Reliable.ReliableTx.constructor` | crates/tpt-t-link/src/reliable.rs:133-149 | an empty window of the least power of two that is large enough |
| `Reliable.ReliableTx.InFlight` | crates/tpt-t-link/src/reliable.rs:158-165 | the number of live slots |
| `Reliable.ReliableTx.Send` | crates/tpt-t-link/src/reliable.rs:168-184 | refuses exactly outside the window or on another live frame, and otherwise retains this frame in place of what its slot held |
| `Reliable.ReliableTx.OnAck` | crates/tpt-t-link/src/reliable.rs:189-222 | both loops free exactly the passed and SACKed slots; the sample is that of the oldest stamped one freed |
| `Reliable.ReliableTx.Tick` | crates/tpt-t-link/src/reliable.rs:226-240 | retransmits exactly the overdue frames in slot order and restamps only those |
| `Reliable.ReliableRx.Accept` | crates/tpt-t-link/src/reliable.rs:320-342 | classifies a frame and buffers it at its distance from the next expected one, once |
| `Reliable.ReliableRx.Drain` | crates/tpt-t-link/src/reliable.rs:347-369 | emits the consecutive ready frames, shifting slots and bit map with wrapping sequence words |
| `Reliable.ReliableRx.BuildAck` | crates/tpt-t-link/src/reliable.rs:372-378 | base and bitmap of the receiver's state |
| `ReliableLink.StepKeeps` | crates/tpt-t-link/src/reliable.rs:168-378 | every step of sender, receiver or network keeps the link invariant: wrapped words stand for unbounded numbers, acks are truthful, and each accepted frame is received or retained |
| `ReliableRuns.Delivery` | crates/tpt-t-link/src/reliable.rs:320-378 | under any loss, duplication and reordering, what `drain` has emitted is the payloads submitted for 0, 1, 2, ... in order, with no gap, duplicate or change |
| `ReliableRuns.HistoryGrows` | crates/tpt-t-link/src/reliable.rs:168-369 | of any two points of a run the later has all that was submitted and delivered by the earlier, unaltered |
| `ReliableRuns.Recovery` | crates/tpt-t-link/src/reliable.rs:226-240 | a submitted non-empty frame the receiver lacks is in one live slot, and is retransmitted exactly when that slot is stamped and overdue |
| `ReliableLink.BuiltAck` | crates/tpt-t-link/src/reliable.rs:372-378 | the ack the receiver builds claims only frames it has |
| `ReliableLink.AckFreesReceived` | crates/tpt-t-link/src/reliable.rs:189-222 | `on_ack` only frees frames the receiver has, however stale the ack within half the space |
| `ReliableWedge.WedgeForever` | crates/tpt-t-link/src/reliable.rs:194 | once a full window is received and its earlier acks are lost, no step frees a slot, accepts a new sequence or delivers again |
| `ReliableWedge.WedgeReachable` | crates/tpt-t-link/src/reliable.rs:194 | every window size reaches that state by losing acks alone |
| `ReliableWedge.FreshAck` | crates/tpt-t-link/src/reliable.rs:189-222 | a fresh ack frees every frame received and opens the window by one, exactly while the receiver is less than a full window ahead |
| `Mpmc.CellOfWord` | crates/tpt-t-core/src/mpmc.rs:66-75 | masking the wrapped position gives the cell of the unbounded one |
| `Mpmc.StepKeeps` | crates/tpt-t-core/src/mpmc.rs:66-130 | every atomic step of every thread keeps the cell protocol: what each cell holds, who owns it, and what was claimed and returned |
| `MpmcRuns.Fifo` | crates/tpt-t-core/src/mpmc.rs:66-130 | in every interleaving the n-th claimed pop returns the n-th claimed push, and a claimed pop that has not returned is still under way |
| `MpmcRuns.ReturnedOnce` | crates/tpt-t-core/src/mpmc.rs:99-130 | each claimed position is returned once |
| `MpmcRuns.CellOwnership` | crates/tpt-t-core/src/mpmc.rs:66-130 | no two threads own one cell at once |
| `MpmcRuns.FullMeansUnreleased` | crates/tpt-t-core/src/mpmc.rs:66-96 | `push` fails exactly when, at its load of the sequence, it aims at the tail and the cell one lap back is unreleased |
| `MpmcRuns.EmptyMeansUnpublished` | crates/tpt-t-core/src/mpmc.rs:99-130 | `pop` fails exactly when, at its load of the sequence, it aims at the head and that cell is unpublished |
| `MpmcOneCell.OneCellOverwrites` | crates/tpt-t-core/src/mpmc.rs:66-96 | with one cell two pushes in a row both succeed and the second overwrites the first |
| `MpmcOneCell.OneCellStuck` | crates/tpt-t-core/src/mpmc.rs:99-130 | from then on, over any number of steps of any threads, no step claims or returns a pop; pushes still claim and succeed |
| `MpmcOneCell.CapacityBound` | crates/tpt-t-core/src/mpmc.rs:44-58 | in every run the queue holds at most its capacity, exactly for two cells or more |
| `MpmcRing.MpmcRing.constructor` | crates/tpt-t-core/src/mpmc.rs:44-58 | an empty queue of the least power of two that is large enough |
| `MpmcRing.MpmcRing.Push` | crates/tpt-t-core/src/mpmc.rs:66-96 | appends or refuses a full queue, whatever spurious failures; a single cell takes a second element in place of the first |
| `MpmcRing.MpmcRing.Pop` | crates/tpt-t-core/src/mpmc.rs:99-130 | removes and returns the oldest element, or reports empty |
| `Spsc.StepRefines` | crates/tpt-t-ring/src/spsc.rs:35-78 | each atomic access of producer or consumer refines a step of a bounded queue; "full" and "empty" are true when decided |
| `Spsc.SlotsApart` | crates/tpt-t-ring/src/spsc.rs:35-78 | the slot being written is never the slot being read, and the slot read is initialized |
| `Spsc.RunRefines` | crates/tpt-t-ring/src/spsc.rs:35-78 | after any interleaving, what was popped followed by what is held is what was pushed, and at most the capacity is held, with wrapping cursors |
| `Spsc.SpscRing.constructor` | crates/tpt-t-ring/src/spsc.rs:102-113 | an empty ring of the least power of two that is large enough |
| `Spsc.SpscRing.Push` | crates/tpt-t-ring/src/spsc.rs:146-159 | appends, or hands the value back when full |
| `Spsc.SpscRing.Pop` | crates/tpt-t-ring/src/spsc.rs:163-173 | removes and returns the oldest element |
| `Spsc.SpscRing.PushSlice` | crates/tpt-t-ring/src/spsc.rs:180-186 | appends the longest prefix that fits and returns its length |
| `Pool.PartitionCount` | crates/tpt-t-core/src/pool.rs:42-90 | free indices and guarded ones add up to the size |
| `Pool.FreeList` | crates/tpt-t-core/src/pool.rs:42-59 | the loop of `new` leaves every index in the free list once |
| `Pool.BufferPool.constructor` | crates/tpt-t-core/src/pool.rs:42-59 | at least one slot, none guarded |
| `Pool.BufferPool.GetWith` | crates/tpt-t-core/src/pool.rs:74-90 | hands out a slot nobody holds, or none exactly when all are held; only a slot never taken before is initialized |
| `Pool.BufferPool.Release` | crates/tpt-t-core/src/pool.rs:107-111 | returns exactly this index; nothing is lost when calls do not overlap |
| `PoolSteps.StepKeeps` | crates/tpt-t-core/src/pool.rs:74-111 | every atomic step of every thread keeps each index in one place |
| `PoolSteps.Exclusivity` | crates/tpt-t-core/src/pool.rs:74-111 | in every interleaving and for every size no two live guards hold one slot, and every held slot is initialized |
| `PoolSteps.Accounting` | crates/tpt-t-core/src/pool.rs:74-111 | in every interleaving every index is in exactly one place or was lost to an ignored "full" |
| `PoolSteps.InUseBounds` | crates/tpt-t-core/src/pool.rs:67-111 | in every interleaving `in_use` is at least the number of live guards, and equals it exactly when no call is between counting a slot and handing it over or back |
| `PoolSteps.NeverFull` | crates/tpt-t-core/src/pool.rs:107-111 | while an index is being dropped the free list has room for it |
| `PoolSteps.LostWhen` | crates/tpt-t-core/src/pool.rs:107-111 | a drop loses its index exactly when the tail cell's previous occupant has been claimed but not released |
| `PoolLeak.LeakRun` | crates/tpt-t-core/src/pool.rs:107-111 | from a fresh pool of two slots a drop that meets a stalled `get_with` loses slot 1 |
| `Crc.ShiftInjective` | crates/tpt-t-link/src/crc.rs:15-33 | the register step is injective in the register |
| `Crc.SerialInjective` | crates/tpt-t-link/src/crc.rs:37-43 | different registers stay different over messages of any length |
| `Crc.FeedByte` | crates/tpt-t-link/src/crc.rs:37-43 | one table lookup feeds the eight bits of a byte, low end first |
| `Crc.BurstDetected` | crates/tpt-t-link/src/crc.rs:37-43 | any change within 32 consecutive bits of a message of any length changes its CRC |
| `Crc.CheckedBurst` | crates/tpt-t-link/src/crc.rs:37-43 | a message with its right trailer, changed within 32 consecutive bits across both, no longer checks |
| `Crc.TrailerResidue` | crates/tpt-t-link/src/crc.rs:37-43 | a trailer is right exactly when the register over message and trailer is the constant residue |
| `CrcRemainder.PolyReversed` | crates/tpt-t-link/src/crc.rs:1-12 | the code's constant is the standard's generator with its bits reversed |
| `CrcRemainder.RemainderUnique` | crates/tpt-t-link/src/crc.rs:1-12 | over the field of two elements a polynomial has one remainder |
| `CrcRemainder.Crc32IsRemainder` | crates/tpt-t-link/src/crc.rs:37-43 | the CRC, complemented and bit-reversed, is the remainder of the message polynomial, started at all ones, modulo the generator, and no other number is |
| `Crc.BuildTable` | crates/tpt-t-link/src/crc.rs:15-33 | entry `b` is byte `b` shifted eight times |
| `Crc.Crc32` | crates/tpt-t-link/src/crc.rs:37-43 | the table loop computes the bit-serial CRC of every byte string |
| `Wire.CommandRoundTrip` | crates/tpt-t-link/src/mux.rs:667-683 | a command read from the front of its 56-byte image is that command, whatever follows |
| `Wire.TelemetryRoundTrip` | crates/tpt-t-link/src/mux.rs:405-420 | the same for a telemetry packet |
| `Wire.BeaconRoundTrip` | crates/tpt-t-link/src/mesh.rs:78-106 | a beacon decodes to itself exactly when its magic and version are right |
| `Wire.AckRoundTrip` | crates/tpt-t-link/src/reliable.rs:54-63 | an ack decodes to itself, whatever follows |
| `Mux.WriteHeader` | crates/tpt-t-link/src/mux.rs:361-371 | the 16 header bytes, and nothing behind them changed |
| `Mux.FinishFrame` | crates/tpt-t-link/src/mux.rs:374-378 | the trailer over header and payload, and nothing behind it changed |
| `Mux.WriteControlFrame` | crates/tpt-t-link/src/mux.rs:383-402 | a whole frame of the command with its integrity tag filled in |
| `Mux.WriteTelemetryFrame` | crates/tpt-t-link/src/mux.rs:405-420 | a whole frame of the packet |
| `Mux.WriteMeshFrame` | crates/tpt-t-link/src/mux.rs:425-433 | a whole frame of the beacon |
| `Mux.WriteAckFrame` | crates/tpt-t-link/src/mux.rs:436-444 | a whole frame of the ack, with the ACK flag |
| `Mux.WriteIceFrame` | crates/tpt-t-link/src/mux.rs:449-463 | a whole frame, or an error and an untouched buffer exactly if the payload is too long |
| `Mux.WriteSecureFrame` | crates/tpt-t-link/src/mux.rs:470-485 | the same with the caller's flags |
| `Mux.DemuxIntact` | crates/tpt-t-link/src/mux.rs:599-661 | framing and check errors are reported exactly on datagrams that are not intact, and only received bytes are looked at |
| `Mux.FrameParses` | crates/tpt-t-link/src/mux.rs:599-661 | every frame parses, from any buffer that holds it, to its channel, flags and payload |
| `Mux.BurstRejected` | crates/tpt-t-link/src/mux.rs:599-661 | any change within 32 consecutive bits of an intact datagram (header, payload or trailer) is rejected |
| `Mux.ByteIsBurst` | crates/tpt-t-link/src/mux.rs:599-661 | any change of one byte is such a change |
| `Mux.ResizedRejected` | crates/tpt-t-link/src/mux.rs:599-661 | a datagram cut short or padded is malformed |
| `Mux.ControlRoundTrip` | crates/tpt-t-link/src/mux.rs:383-402 | a control frame comes back as the stamped command and its reliable flag exactly when the ACK flag is clear |
| `Mux.TelemetryRoundTrips` | crates/tpt-t-link/src/mux.rs:405-420 | a telemetry frame comes back as its packet |
| `Mux.MeshRoundTrip` | crates/tpt-t-link/src/mux.rs:425-433 | a mesh frame comes back as its beacon, or a payload error for a wrong magic or version |
| `Mux.AckRoundTrips` | crates/tpt-t-link/src/mux.rs:436-444 | an ack frame comes back as its ack |
| `Mux.OpaqueRoundTrip` | crates/tpt-t-link/src/mux.rs:449-485 | opaque payloads of any legal length come back whole, sealed ones with their flags |
| `Mesh.NeighborTable.constructor` | crates/tpt-t-link/src/mesh.rs:169-175 | an empty table of at least one slot |
| `Mesh.NeighborTable.Observe` | crates/tpt-t-link/src/mesh.rs:198-258 | until an entry is removed, the table does what a map bounded by the capacity does; in every run `len` counts the occupied slots |
| `Mesh.NeighborTable.Find` | crates/tpt-t-link/src/mesh.rs:261-272 | an unbroken table finds exactly what the map holds |
| `Mesh.NeighborTable.Expire` | crates/tpt-t-link/src/mesh.rs:275-287 | empties exactly the slots silent beyond the limit, and `len` follows |
| `Mesh.ChangesApart` | crates/tpt-t-link/src/mesh.rs:215-245 | over any run, accepted address changes of one unit are at least the cooldown apart |
| `Mesh.SurvivorFound` | crates/tpt-t-link/src/mesh.rs:261-287 | after removals a survivor is found exactly when no slot before it on its probe path was emptied |
| `Mesh.HiddenSurvivor` | crates/tpt-t-link/src/mesh.rs:261-287 | a run of a table of two: once the first unit is expired, the second is still in its slot and no longer found |
| `Uring.UringTx.constructor` | crates/tpt-t-link/src/uring.rs:82-116 | all slots free and, below the sentinel index, on the chain in index order |
| `Uring.UringTx.Available` | crates/tpt-t-link/src/uring.rs:120-122 | the number of free slots: those on the chain and those beyond the sentinel |
| `Uring.UringTx.Stage` | crates/tpt-t-link/src/uring.rs:139-155 | fills the free slot at the head of the list, never one staged or in flight; busy exactly when no slot below index 65535 is free |
| `Uring.UringTx.SubmitStaged` | crates/tpt-t-link/src/uring.rs:159-204 | moves exactly the first staged slots there is room for to the kernel, with both counters exact even when the submission fails |
| `Uring.UringTx.Reap` | crates/tpt-t-link/src/uring.rs:213-232 | frees exactly the completed slots, last completion at the head of the chain, and reports the failures in order |
| `Uring.CountsCover` | crates/tpt-t-link/src/uring.rs:60-64 | free, staged and in-flight slots add up to all of them |
| `Backpressure.RefillBound` | crates/tpt-t-link/src/backpressure.rs:205-232 | one refill credits at most what the elapsed time earns, keeps credit in whole bytes and within the burst limit, and never moves time back |
| `Backpressure.TokenBound` | crates/tpt-t-link/src/backpressure.rs:205-253 | over any calls at any times, bytes let through and credit left are at most the initial credit and what the capacity earns between refills; credit stays within one second of capacity or one byte; drops count refusals |
| `Backpressure.TokensDelivered` | crates/tpt-t-link/src/backpressure.rs:205-253 | the other way: while neither the word nor the burst limit cuts a refill, bytes let through and credit left fall short of what was earned by less than a byte for each refill |
| `Backpressure.RefillNeverWraps` | crates/tpt-t-link/src/backpressure.rs:212-230 | no sum or product of a refill wraps, exactly below a capacity a little under 2^51 |
| `Backpressure.SplitRefill` | crates/tpt-t-link/src/backpressure.rs:212-213 | refilling half way loses credit exactly when the remainders make up a byte or, where the product of the whole saturates, when the halves fall short of it; and gains credit exactly when it saturates and they exceed it |
| `Backpressure.Starved` | crates/tpt-t-link/src/backpressure.rs:205-253 | a bucket always polled before a byte is earned earns nothing over any run |
| `Backpressure.SmoothedBetween` | crates/tpt-t-link/src/backpressure.rs:130-138 | the estimate stays between old value and sample, never returns to zero, and moves exactly while the two differ in their quarters |
| `Backpressure.CongestionMonotone` | crates/tpt-t-link/src/backpressure.rs:262-278 | more depth or blocked sends never lower the level or raise the bitrate, which stays between a quarter of the capacity and all of it |
| `Backpressure.NormalIsCapacity` | crates/tpt-t-link/src/backpressure.rs:275-278 | a healthy link is offered its capacity exactly while the product fits the word |
| `Backpressure.Signal.Refill` | crates/tpt-t-link/src/backpressure.rs:205-232 | the new bucket, and that its credit is in whole bytes |
| `Backpressure.Signal.Admit` | crates/tpt-t-link/src/backpressure.rs:238-253 | lets a send through exactly when the refilled credit covers it, spending or counting a drop |
| `Backpressure.Signal.NoteSendBlocked` | crates/tpt-t-link/src/backpressure.rs:165-175 | counts the send, in a new window when the last began over 100 ms ago |
| `Backpressure.Signal.Congested` | crates/tpt-t-link/src/backpressure.rs:262-272 | the level of depth and blocked sends |
| `Backpressure.Signal.SuggestedBitrateBps` | crates/tpt-t-link/src/backpressure.rs:275-278 | the share of the capacity that level leaves |
| `Backpressure.Signal.NoteRttNs` | crates/tpt-t-link/src/backpressure.rs:130-138 | the smoothed estimate, in words that never wrap |
| `Governor.Slew` | crates/tpt-t-media/src/encoder.rs:113-124 | the saturating code reaches the target or moves one stride toward it |
| `Governor.SlewApproaches` | crates/tpt-t-media/src/encoder.rs:113-124 | stays in range, never overshoots, and shrinks the distance by a stride or to nothing |
| `Governor.SteadyReaches` | crates/tpt-t-media/src/encoder.rs:113-124 | a steady target is met after n ticks exactly when n strides cover the distance |
| `Governor.Converges` | crates/tpt-t-media/src/encoder.rs:138-160 | any steady signal is met within 65 ticks from anywhere in the range |
| `Governor.SixtyFourTooFew` | crates/tpt-t-media/src/encoder.rs:138-160 | some range and start are not settled within 64 ticks |
| `Governor.TicksInRange` | crates/tpt-t-media/src/encoder.rs:151-160 | under any signals every bitrate is in range and between the last one and its clamped signal |
| `Governor.EncoderGovernor.Tick` | crates/tpt-t-media/src/encoder.rs:151-160 | one tick of that run, applied to the encoder |
| `Safety.Latency.ObservedBetween` | crates/tpt-t-safety/src/latency.rs:40-50 | the delay estimate stays between its last value and the sample |
| `Safety.Latency.AttenuationRange` | crates/tpt-t-safety/src/latency.rs:55-61 | the factor is in [0.2, 1] and at its floor from the maximal delay on |
| `Safety.Latency.CompensatedShrinks` | crates/tpt-t-safety/src/latency.rs:66-73 | compensation pushes no axis away from neutral or past it |
| `Safety.Compensate` | crates/tpt-t-safety/src/latency.rs:66-73 | the loop scales exactly the translational axes |
| `Safety.SmootherstepMonotone` | crates/tpt-t-safety/src/spline.rs:18-21 | the curve never falls |
| `Safety.SmootherstepRange` | crates/tpt-t-safety/src/spline.rs:18-21 | from 0 to 1 |
| `Safety.Blend.WeightRange` | crates/tpt-t-safety/src/spline.rs:44-70 | the weight stays between the ends and is the target once done |
| `Safety.Blend.AdvanceMoves` | crates/tpt-t-safety/src/spline.rs:54-64 | time moves the weight monotonically toward the target |
| `Safety.Blend.ReachesTarget` | crates/tpt-t-safety/src/spline.rs:54-70 | the weight is the target exactly once the advances cover the time left, or if there was no way to go |
| `Safety.MixedBetween` | crates/tpt-t-safety/src/loop_.rs:235-249 | each mixed axis lies between autonomy and operator |
| `Safety.Veto.AppliedShrinks` | crates/tpt-t-safety/src/veto.rs:59-74 | the veto pushes no axis away from neutral or past it, and caps the translational ones |
| `Safety.ApplyVeto` | crates/tpt-t-safety/src/veto.rs:59-74 | the loop clamps exactly those axes and reports exactly whether it changed one |
| `Safety.Fence.FencedShrinks` | crates/tpt-t-safety/src/geo.rs:102-137 | the fence pushes no axis but the throttle away from neutral or past it |
| `Safety.Fence.FencedThrottle` | crates/tpt-t-safety/src/geo.rs:130-137 | no climb past the soft ceiling, no descent at the floor |
| `Safety.Fence.BreachOutward` | crates/tpt-t-safety/src/geo.rs:102-122 | when a command that leaves the fence at a hard breach still moves outward, on each axis and along the displacement, exactly |
| `Safety.Fence.BreachStillOutward` | crates/tpt-t-safety/src/geo.rs:102-122 | with displacement (3, 4) and both lateral axes at 1, outward motion is left |
| `Safety.ClampCommand` | crates/tpt-t-safety/src/geo.rs:102-137 | the in-place code computes the fenced axes |
| `Safety.Limits.AppliedEnvelope` | crates/tpt-t-safety/src/limits.rs:57-98 | whatever is asked for, the result is within the limits, at most one step from the last command, and on the way to the clamped target |
| `Safety.ApplyLimits` | crates/tpt-t-safety/src/limits.rs:57-74 | the in-place code computes the limited axes; untouched means nothing but the throttle clamp can have changed |
| `SafetyRuns.RunEnvelope` | crates/tpt-t-safety/src/loop_.rs:207-318 | after any operations since start-up the next output obeys limits, slew and brake against the output before it, goes no further from neutral than that output, the autonomy and the operator, and the authority is in [0, 1] |
| `SafetySteps.TickEnvelope` | crates/tpt-t-safety/src/loop_.rs:207-318 | the same from any state of the invariant |
| `SafetySteps.TickBounded` | crates/tpt-t-safety/src/loop_.rs:207-318 | no tick takes an axis other than the throttle further from neutral than the last output, the autonomy and the operator |
| `SafetyRuns.StopAbsorbs` | crates/tpt-t-safety/src/loop_.rs:250-318 | from an emergency stop, or the tick that meets a hard breach, every output is the zeroed emergency command |
| `SafetyRuns.StopExactly` | crates/tpt-t-safety/src/loop_.rs:164-167 | after any run the stop is latched exactly if it was before, or some operation was an emergency stop or handled a command at a pose in hard breach |
| `SafetyRuns.OverrideExactly` | crates/tpt-t-safety/src/loop_.rs:302-318 | after any run since start-up the output is overridden exactly if the run and this tick hold such a cause, and otherwise is the shaped command |
| `SafetyRuns.OverrideLookalike` | crates/tpt-t-safety/src/loop_.rs:302-318 | a shaped command can equal the emergency command with nothing latched |
| `SafetyRuns.RequestedStop` | crates/tpt-t-safety/src/loop_.rs:148-167 | a mode request for emergency stop leaves the latch of every later run as it would have been, and hands over to the autonomy once its blend is covered |
| `SafetyRuns.ModeUnseen` | crates/tpt-t-safety/src/loop_.rs:207-318 | over any run without mode requests, loops that differ in the mode alone put out the same commands and end differing in the mode alone |
| `SafetyRuns.VetoConverges` | crates/tpt-t-safety/src/loop_.rs:251-265 | while the veto stays engaged each translational axis shrinks by a step per command until within the cap, and stays there |
| `SafetyRuns.VetoReached` | crates/tpt-t-safety/src/loop_.rs:251-265 | enough commands to cover the distance bring it within the cap |
| `SafetyRuns.TickAuthority` | crates/tpt-t-safety/src/loop_.rs:210-249 | a tick moves the authority toward the blend's target, never past it or back |
| `SafetyRuns.BlendReaches` | crates/tpt-t-safety/src/loop_.rs:210-249 | over any run without mode requests the blend ends at its target exactly if its advances, two for a tick with a command, cover the time left, or if it had nowhere to go |
| `SafetyRuns.ModeReached` | crates/tpt-t-safety/src/loop_.rs:148-159 | a granted request ends at the mode's authority exactly if it starts a blend or is headed there anyway |
| `SafetyRuns.RequestSwallowed` | crates/tpt-t-safety/src/loop_.rs:148-159 | halfway to full teleoperation a return to assist ends with full authority to the operator |
| `SafetyRuns.SwallowReached` | crates/tpt-t-safety/src/loop_.rs:148-159 | that state is reached from start-up |
| `SafetySteps.MixEnvelope` | crates/tpt-t-safety/src/loop_.rs:235-249 | each axis of the mix lies between baseline and compensated operator value |
| `SafetyLoop.SafetyLoop.SetPose` | crates/tpt-t-safety/src/loop_.rs:128-138 | the pose step of the run, with its climb estimate |
| `SafetyLoop.SafetyLoop.RequestMode` | crates/tpt-t-safety/src/loop_.rs:148-159 | grants exactly the table's transitions, and is the request step of the run |
| `SafetyLoop.SafetyLoop.EmergencyStop` | crates/tpt-t-safety/src/loop_.rs:164-167 | the stop step of the run |
| `SafetyLoop.SafetyLoop.ProcessOne` | crates/tpt-t-safety/src/loop_.rs:207-318 | one tick of the run over the drained input, its output published or counted as dropped |
| `JsonRoundTrip.ValueParses` | crates/tpt-t-cloud/src/json.rs:221-245 | the parser stops exactly at the end of the printed form, whatever delimiter follows |
| `JsonRoundTrip.CharParses` | crates/tpt-t-cloud/src/json.rs:190-208 | every printed character, escaped or not, is read back |
| `JsonRoundTrip.WholeReadable` | crates/tpt-t-cloud/src/json.rs:304-330 | every integer below 10^15 in magnitude is printed and read back |
| `JsonRoundTrip.RoundTrip` | crates/tpt-t-cloud/src/json.rs:132-179 | a printable value comes back with each string's bytes as characters, so unchanged exactly if it is ASCII |
| `JsonRoundTrip.AsciiRoundTrip` | crates/tpt-t-cloud/src/json.rs:132-179 | a value whose numbers are small integers comes back unchanged exactly if its strings and keys are ASCII |
| `JsonRoundTrip.GarbleIff` | crates/tpt-t-cloud/src/json.rs:296-299 | taking UTF-8 bytes for characters changes a value exactly if it is not ASCII |
| `JsonCode.WriteJson` | crates/tpt-t-cloud/src/json.rs:132-168 | the appending loops print the specified form |
| `JsonCode.WriteJsonString` | crates/tpt-t-cloud/src/json.rs:190-208 | the escaping loop prints the specified form |
| `JsonCode.ParseJsonString` | crates/tpt-t-cloud/src/json.rs:256-302 | value, error and final position of the string loop |
| `JsonCode.ParseJsonNumber` | crates/tpt-t-cloud/src/json.rs:304-330 | value, error and final position of the number scan |
| `JsonCode.ParseJsonArray` | crates/tpt-t-cloud/src/json.rs:332-358 | value, error and final position of the array loop |
| `JsonCode.ParseJsonObject` | crates/tpt-t-cloud/src/json.rs:360-396 | value, error and final position of the object loop |
| `JsonCode.ParseJsonValue` | crates/tpt-t-cloud/src/json.rs:221-245 | value, error and final position of the dispatch |
| `JsonCode.ParseJson` | crates/tpt-t-cloud/src/json.rs:171-179 | a whole text, with trailing data refused |
| `FlightLog.NewEntry` | crates/tpt-t-analytics/src/record.rs:84-111 | refuses exactly oversized payloads; otherwise kind, time and meaningful payload read back |
| `FlightLog.ImageRoundTrip` | crates/tpt-t-analytics/src/record.rs:148-164 | a frame read from its 528-byte image is that frame |
| `FlightLog.ParseEntries` | crates/tpt-t-analytics/src/record.rs:344-359 | the loop yields the specified frames |
| `FlightLog.ParseTruncated` | crates/tpt-t-analytics/src/record.rs:344-359 | cutting any byte string anywhere loses exactly the frames no longer whole |
| `FlightLog.LogRoundTrip` | crates/tpt-t-analytics/src/record.rs:268-282 | a whole log gives back its frames exactly when none is of the marker's kind |
| `FlightLog.LogPrefix` | crates/tpt-t-analytics/src/record.rs:344-359 | any truncation of a log gives back its whole frames, a prefix of those written |
| `FlightLog.DirectFile.Write` | crates/tpt-t-analytics/src/direct_io.rs:309-325 | device and staging together hold everything accepted, in whole sectors on the device; on failure a prefix |
| `FlightLog.DirectFile.Flush` | crates/tpt-t-analytics/src/direct_io.rs:328-342 | everything accepted and zeros to the end of the last sector |
| `FlightLog.FdrSink.TryRecord` | crates/tpt-t-analytics/src/record.rs:182-190 | queues the frame, or sheds it exactly when it is too long or the ring is full |
| `FlightLog.FdrWriter.DrainOnce` | crates/tpt-t-analytics/src/record.rs:254-264 | empties the ring into the file in order, frame by frame |
| `FlightLog.FdrWriter.Run` | crates/tpt-t-analytics/src/record.rs:268-282 | writes the log of exactly the frames the ring accepted and returns its length, or leaves a prefix of the log of those popped |

## Left out

- Memory orderings weaker than sequential consistency, unsafe pointer mechanics and cache padding.
- Rounding and NaN of floats in the safety loop: axes, times and poses are reals. `hypot` is a parameter
  required to be the exact root of the sum of squares.
- JSON numbers other than integers below 10^15: printing and reading of other floats are parameters, and
  `RoundTrip` asks only that what they print they read back as one token.
- The archive format of the serializer: an archive is the dense little-endian image of its struct, with the
  root at the end of the payload.
- Sockets, files, io_uring and other system calls, clocks, sleeping, threads and core pinning: room, results,
  completions, times and offered frames are parameters.
- The peer address a parsed datagram carries.
- Overlapping calls on the classes for rings, queue, pool and writer; the step models `Mpmc`, `Spsc` and
  `PoolSteps` cover overlap for the first three.
- The race at shutdown of the log writer: a frame published after the writer's last look is not in the log.
- Ring and window sizes above 2^31, which the constructors of the model do not take.
- The byte counter of the log file wrapping at 2^64.
- Uring.UringTx.Reap: completions are of distinct slots in flight, as the kernel delivers them.
- MpmcRuns.Fifo: positions stay within a quarter of the 64-bit counter range of each other in every state of a run.
- MpmcOneCell.OneCellStuck: pushes do not run more than a quarter of the 64-bit counter range past the head, after which
  the wrapped comparison could come out the other way.
- ReliableRuns.Delivery: nothing in the network is staler than half the 32-bit sequence space when it arrives, and one
  payload is submitted for each number.
- Mesh.NeighborTable.Observe: after `expire` has removed an entry only the count of occupied slots is claimed.
- The tag table of RBAC and the cryptography of crates/tpt-t-sec, the MAVLink bridge, the four- and five-state
  tables of sessions and fleets, the command line, HTTP server, dashboard and simulators.
