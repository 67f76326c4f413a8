# Selective-repeat transport of `sr.c`, modelled in Dafny

`sr.c` is the protocol half of a Kurose & Ross network-emulator exercise. It
is a selective-repeat ARQ transport, although its header still says "Go Back
N". Two entities exchange packets over an unreliable channel:

- **Sender A** keeps up to `WINDOWSIZE` = 6 unacknowledged packets.
  - They sit in a ring buffer `buffer[]` with per-slot `acked[]` flags.
  - The indices `windowfirst`/`windowlast`, the counter `windowcount` and
    `A_nextseqnum` locate them; sequence numbers run modulo `SEQSPACE` = 7.
  - `A_output` sends a new message if the window has room.
  - `A_input` marks the packet an ACK names and slides the window over the
    acked run at its start.
  - `A_timerinterrupt` resends every unacked packet in the window.
- **Receiver B** keeps out-of-order packets in slots `rbuffer[seq % WINDOWSIZE]`
  with flags `rcvd[]`.
  - `B_input` drops corrupted and out-of-window packets and ACKs them with
    `expectedseqnum - 1`.
  - It stores a new in-window packet and ACKs it, and re-ACKs a duplicate.
  - After a new packet it hands the contiguous run from `expectedseqnum` to
    layer 5.
- Both sides protect packets with an additive checksum over `seqnum`, `acknum`
  and the 20 payload bytes.

The model has three layers:

- `Protocol` holds the constants, the packet type, C's remainder and the
  emulator events. `Checksum` holds the checksum.
- `SendWindow` and `RecvWindow` describe each entity on values.
  - A snapshot of its globals is a datatype.
  - Each event handler is a function from a snapshot to the next snapshot
    and the emulator calls made.
  - The protocol's properties are lemmas about those functions.
- `SenderA.Sender` and `ReceiverB.Receiver` are classes whose fields are the
  globals of `sr.c`, with the arrays kept as arrays.
  - Their methods update the fields in place, loop by loop, as the C
    functions do.
  - Each method is proved to leave exactly the snapshot the matching
    function computes.
  - Calls into the emulator (`tolayer3`, `tolayer5`, `starttimer`,
    `stoptimer`) are appended to a ghost event log, so what was sent and
    delivered is part of every postcondition.

## Model

| member | source | states |
|---|---|---|
| Protocol.SeqModIsMod | sr.c:95 | the wrap used for every sequence-number advance (`(x + 1) % SEQSPACE`) equals C's `%` on the non-negative sums that occur |
| Protocol.CRem | sr.c:189 | C's truncating `%`: the remainder lies strictly between `-b` and `b`, equals Dafny's `%` for a non-negative dividend and is never positive for a non-positive one |
| Checksum.ComputeChecksum | sr.c:37-43 | the checksum of a packet: `seqnum` plus `acknum` plus every payload byte, never the checksum field itself (its loop form is `SumChecksum`) |
| Checksum.IsCorrupted | sr.c:45-48 | a packet counts as corrupted exactly when its checksum field differs from `ComputeChecksum` of it |
| Checksum.SumChecksum | sr.c:37-43 | the checksum loop returns the header sum plus every payload byte, i.e. `ComputeChecksum` |
| Checksum.Stamp | sr.c:81 | filling in the checksum last yields a packet that passes `IsCorrupted` and keeps every other field |
| Checksum.DataPacket | sr.c:77-81 | the packet A_output builds carries `A_nextseqnum`, `NOTINUSE` as acknum, the message, and passes the check |
| Checksum.AckPacket | sr.c:199-204 | both ACKs B_input builds carry the given numbers and twenty '0' characters, and pass the check |
| Checksum.SumUpdate | sr.c:39-41 | replacing one byte moves the payload sum by exactly the difference |
| Checksum.PayloadChangeDetected | sr.c:37-48 | overwriting any single payload byte of a good packet with another value is detected |
| Checksum.HeaderChangeDetected | sr.c:37-48 | changing only the seqnum or only the acknum of a good packet is detected |
| Checksum.SwapUndetected | sr.c:37-48 | exchanging two payload bytes of a good packet is not detected |
| Checksum.CompensatingHeaderChangeUndetected | sr.c:37-48 | raising seqnum and lowering acknum by the same amount is not detected |
| SendWindow.PosIsMod | sr.c:116 | the ring position `Pos(first, i)` is `(first + i) % WINDOWSIZE` whenever the sum is below twice the window |
| SendWindow.SeqnumsDistinct | sr.c:77-99 | under the sender invariant, the packets in the window carry pairwise distinct sequence numbers |
| SendWindow.Initial | sr.c:57-65 | A_init leaves an empty window, packet 0 next, every flag clear, and the sender invariant holds |
| SendWindow.Send | sr.c:67-103 | A_output as a step on values: with room, number the message `A_nextseqnum`, store it after `windowlast`, send it and start the timer for a lone packet, else drop it; the result keeps array sizes and index ranges (SendAppends and SendPreservesInv state the rest) |
| SendWindow.SendAppends | sr.c:72-102 | with room, A_output appends exactly one unacked packet numbered `A_nextseqnum` to the window, advances the number mod SEQSPACE, sends it and starts the timer iff the window was empty; a full window changes nothing and sends nothing |
| SendWindow.SendPreservesInv | sr.c:72-95 | A_output keeps the sender invariant: ring indices consistent, consecutive sequence numbers ending before `A_nextseqnum`, no flag outside the window |
| SendWindow.FindAck | sr.c:114-118 | the search returns the first window position whose packet carries the ACK's number, or none when no position does |
| SendWindow.RunFrom | sr.c:128-133 | the slide stops at the first unacked position at or after `j`, or at the end of the window |
| SendWindow.OnAck | sr.c:105-150 | A_input as a step on values: ignore a corrupted, unmatched or duplicate ACK; for a fresh one flag its packet, stop the timer, slide past the acked run and restart the timer iff packets remain; the result keeps array sizes and index ranges (AckSlides, AckPreservesInv and AckChangesOnlyWhenFresh state the rest) |
| SendWindow.FreshAckFound | sr.c:114-125 | an ACK is fresh (uncorrupted, naming an unacked packet in the window) exactly when the search finds its packet and that packet is unacked |
| SendWindow.AckChangesOnlyWhenFresh | sr.c:107-149 | A_input changes the sender's state iff the ACK is fresh; corrupted, unmatched and duplicate ACKs change nothing and make no call |
| SendWindow.AckSlides | sr.c:119-136 | after a fresh ACK the window loses exactly the acked run at its start, the slots slid past are cleared, the new window is empty or starts unacked, the timer is stopped and restarted iff packets remain |
| SendWindow.AckPreservesInv | sr.c:105-150 | A_input keeps the sender invariant |
| SendWindow.AckNoLongerFresh | sr.c:119-124 | once taken, an ACK is no longer fresh: its packet has left the window or is flagged acked |
| SendWindow.AckIdempotent | sr.c:105-150 | taking the same ACK a second time changes nothing and makes no call |
| SendWindow.UnackedExactly | sr.c:157-166 | the resend list holds one packet per clear flag, and exactly the packets of the window whose flag is clear |
| SendWindow.OnTimeout | sr.c:152-169 | A_timerinterrupt as a step on values: the state as it was, the unacked window packets sent oldest first, then a timer start (TimeoutResendsUnacked states its properties) |
| SendWindow.TimeoutResendsUnacked | sr.c:152-169 | A_timerinterrupt changes no state, sends exactly the unacked packets of the window in window order, and restarts the timer |
| SendWindow.ResentStep | sr.c:157-166 | visiting window position `i` adds its packet to the resend list iff it is not acked |
| SendWindow.SendKeepsTimer | sr.c:90-93 | if the timer runs exactly while packets are outstanding, A_output keeps it so and never starts a running timer |
| SendWindow.AckKeepsTimer | sr.c:127-135 | likewise for A_input: the stop finds the timer running, the restart finds it stopped |
| SendWindow.TimeoutKeepsTimer | sr.c:168 | the interrupt restarts the expired timer exactly once, leaving it running while packets are outstanding |
| SenderA.Sender.Init | sr.c:57-65 | A_init leaves the state `SendWindow.Initial` describes, which satisfies the invariant |
| SenderA.Sender.Output | sr.c:67-103 | A_output updates the ring in place to the state `Send` computes, logs its calls, keeps the invariant and counts a full window in `window_full` |
| SenderA.Sender.Input | sr.c:105-150 | A_input updates the ring in place to the state `OnAck` computes, logs its calls, keeps the invariant, counts every uncorrupted ACK and every fresh one |
| SenderA.Sender.FindSlot | sr.c:114-118 | the search loop stops at the position `FindAck` returns, or at `windowcount` when there is none |
| SenderA.Sender.AckAt | sr.c:124-135 | the fresh-ACK branch flags the slot, stops the timer, slides, and restarts the timer iff packets remain |
| SenderA.Sender.Slide | sr.c:128-133 | the slide loop advances `windowfirst` and lowers `windowcount` by the length of the acked run, clearing each flag it passes |
| SenderA.Sender.TimerInterrupt | sr.c:152-169 | A_timerinterrupt leaves the state unchanged, logs the resends and the restart, and counts the resent packets |
| SenderA.Sender.Resend | sr.c:157-166 | the resend loop logs one `tolayer3` per unacked window packet, oldest first |
| RecvWindow.SlotIsMod | sr.c:209 | the receiver slot `Slot(seq)` is `seq % WINDOWSIZE` for a non-negative seq |
| RecvWindow.Initial | sr.c:177-183 | B_init leaves nothing received, packet 0 expected and ACKs numbered from 1, and the receiver invariant holds |
| RecvWindow.Diff | sr.c:189 | B_input's `diff` with C's `%`: it lies strictly between `-SEQSPACE` and `SEQSPACE`, and for a non-negative seq it is the number of places after `expectedseqnum` at which that seq comes round |
| RecvWindow.Accepts | sr.c:189-193 | B_input takes a packet, rather than dropping it, exactly when it passes the checksum and its `diff` is below WINDOWSIZE |
| RecvWindow.Deliver | sr.c:241-246 | the delivery loop on values: while the slot of `expectedseqnum` is full, hand its payload up, clear it and expect the next number; its flags and expected number stay in range (DeliverStops, DeliverAt and DeliverRun state what it delivers) |
| RecvWindow.DeliverStops | sr.c:241-246 | the delivery loop ends at an empty slot, and each payload it hands up clears one set flag, so it runs at most WINDOWSIZE times |
| RecvWindow.DeliverClearsOnly | sr.c:241-246 | the delivery loop never sets a flag |
| RecvWindow.DeliverEnd | sr.c:245 | the loop ends expecting the number after the last one it delivered |
| RecvWindow.DeliverFirst | sr.c:241-244 | when the slot of `expectedseqnum` is full, its payload is delivered first and the slot is left empty |
| RecvWindow.DeliverAt | sr.c:241-246 | the `t`-th payload delivered is that of the slot of `expectedseqnum + t` (mod SEQSPACE), which was full and is left empty |
| RecvWindow.DeliverRun | sr.c:241-246 | the loop delivers, in order, the payloads of the slots of consecutive numbers from `expectedseqnum`, and ends past them |
| RecvWindow.Receive | sr.c:185-248 | every call sends one uncorrupted ACK numbered `B_nextseqnum` and advances that number by one mod SEQSPACE |
| RecvWindow.RejectedAck | sr.c:193-207 | a corrupted or out-of-window packet leaves slots, flags and `expectedseqnum` unchanged, delivers nothing, and is ACKed with `expectedseqnum - 1` mod SEQSPACE |
| RecvWindow.AcceptedAck | sr.c:229-236 | an accepted packet, new or duplicate, is ACKed with its own seq |
| RecvWindow.DuplicateIgnored | sr.c:209-227 | a packet whose slot is full is not new, is not stored, and delivers nothing |
| RecvWindow.DuplicateIdempotent | sr.c:209-227 | taking the duplicate again changes only the ACK counter |
| RecvWindow.NewPacketStored | sr.c:209-247 | a new packet is stored in its slot; delivery ends at an empty slot, delivers at most a window's worth and advances `expectedseqnum` by exactly what it delivered |
| RecvWindow.InOrderDelivered | sr.c:209-246 | a new packet numbered `expectedseqnum` is delivered at once, first |
| RecvWindow.DiffStep | sr.c:189 | advancing `expectedseqnum` lowers the window distance of every other number by one |
| RecvWindow.DeliverKeepsInv | sr.c:241-246 | the delivery loop keeps the slot invariant: every full slot holds a good packet that belongs there and lies in the window |
| RecvWindow.ReceivePreservesInv | sr.c:185-248 | B_input keeps the receiver invariant for packets numbered inside the sequence space |
| RecvWindow.DeliveredFromSlots | sr.c:241-246 | every payload delivered comes from a good packet that was stored in the slot of the number it is delivered as |
| RecvWindow.AliasedPacketDropped | sr.c:189-227 | with packet 2 expected and slot 0 holding packet 6, packet 0 is accepted and ACKed, yet slot 0 still holds packet 6, nothing else changes and nothing is delivered |
| RecvWindow.AliasedPacketDeliveredEarly | sr.c:209-246 | with packet 6 expected and slot 0 empty, packet 0 is stored in slot 0 and delivered at once, ahead of packet 6 |
| ReceiverB.Receiver.Init | sr.c:177-183 | B_init leaves the state `RecvWindow.Initial` describes |
| ReceiverB.Receiver.Input | sr.c:185-207 | B_input updates slots and flags in place to the state `Receive` computes, logs the ACK and the deliveries, keeps the shape and counts new packets |
| ReceiverB.Receiver.Accept | sr.c:209-247 | the accepted path: store when the slot is free, ACK, and deliver only after a new packet, as `Receive` does |
| ReceiverB.Receiver.DeliverInOrder | sr.c:241-246 | the delivery loop clears flags, advances `expectedseqnum` and logs one `tolayer5` per payload, exactly as `Deliver` describes |

## Left out

- Tracing: every `printf` and the `TRACE` levels produce output only.
- The emulator: `tolayer3`, `tolayer5`, `starttimer` and `stoptimer` are declared in `emulator.h`, which is not part of this model.
  - They are events in a ghost log.
  - The channel, its losses and corruptions, and the event scheduler are not modelled.
- `RTT` is a floating-point timer duration; a timer start is an event without a duration.
- The stubs `B_output` and `B_timerinterrupt` do nothing and are not modelled.
- The counters `window_full`, `total_ACKs_received`, `new_ACKs`, `packets_resent` and `packets_received` are defined outside `sr.c`. They are unbounded `nat` fields; C `int` overflow is not modelled.
- Payload bytes are unbounded integers. The signedness of `char` in the `(int)` cast of the checksum is implementation-defined and not modelled. No 32-bit wrap-around is modelled in the checksum sum.
- ReceiverB.Receiver.Input: requires that an accepted packet has a non-negative seq. A negative seq makes the C code index `rbuffer[]` with a negative `seq % WINDOWSIZE`, which C leaves undefined.
- RecvWindow.ReceivePreservesInv: stated only for accepted packets numbered below SEQSPACE. A packet whose damage the checksum misses can carry any seq.
- RecvWindow.DeliveredFromSlots: the same restriction as ReceivePreservesInv.
- There is no lemma stating general in-order delivery. `SEQSPACE` = 7 is less than twice `WINDOWSIZE`, so two numbers of one receive window can share a slot. AliasedPacketDropped and AliasedPacketDeliveredEarly exhibit the resulting drop and early delivery.
- Where `sr.c` departs from textbook selective repeat, the model follows `sr.c`:
  - a corrupted or out-of-window packet is ACKed with `expectedseqnum - 1`, although the comment at sr.c:206 says it is dropped without an ACK;
  - a timeout resends every unacked packet of the window, not only the oldest;
  - there are no retry counters and no retry limit;
  - the room test of A_output is `windowcount < WINDOWSIZE`.
- Static storage before the `_init` functions is modelled by the class constructors: zeroed slots and counters.
