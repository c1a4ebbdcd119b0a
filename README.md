# Alternating-bit transport, modelled in Dafny

This project models the two hosts of a stop-and-wait reliable transport with
an alternating bit (rdt 3.0 style), as written in `src/transport/Sender.java`
and `src/transport/Receiver.java`.

- The **sender** frames one application message at a time. Both the
  sequence and the ack field of the frame carry its current bit. It sends the
  frame, arms a retransmission timer of 40, and waits for an uncorrupted ack
  carrying that bit. Then it stops the timer and flips the bit. When the
  timer runs out it resends the stored frame.
- The **receiver** delivers the payload of an uncorrupted frame that carries
  the bit it expects. It acknowledges the frame by echoing both bit fields in
  an empty packet, and flips its bit. On any other packet it resends its last
  ack, if it has one.
- Both hosts use the same additive checksum: the sum of the payload's signed
  byte values plus the sequence and ack fields.

Files:

- `frames.dfy` (module `Frames`) holds the shared pieces:
  - the packet, the calls a host makes into the network or the application
    (`udtSend`, `startTimer`, `stopTimer`, `deliverData`), recorded as
    `Action`s;
  - the checksum `FrameSum`;
  - Java's `x ^= 1` as `Xor1`.
- `sender.dfy` and `receiver.dfy` (modules `SenderEndpoint`,
  `ReceiverEndpoint`) hold the two hosts:
  - each is a `class` with the Java fields plus a `trace` of the calls it has
    made;
  - each handler is proved equal to a pure step function over the fields
    (`OutputStep`, `AckStep`, `TimeoutStep`, `DataStep`), which states what
    the handler does and keeps the host's invariant;
  - each class has the checksum loop as a method proved to compute `FrameSum`.
- `lockstep.dfy` (module `Lockstep`) relates the two hosts and repeated
  events:
  - frames and acks built by one side pass the other side's test;
  - one round brings both bits back into step;
  - copies of the frame just accepted are never delivered again, and are
    each answered with the same ack;
  - the receiver answers every packet with at most one intact, empty ack,
    the one it keeps;
  - the frames a receiver delivers alternate in bit.
- `system.dfy` (module `AlternatingBit`) composes the two hosts over two FIFO
  channels that may drop a packet or corrupt it detectably. It proves an
  invariant that every event keeps. From it, `Safety` follows for every finite
  run:
  - the receiving application gets a prefix of the messages `output` took
    while the sender was idle, in order and none twice (a message offered
    while an ack is awaited is dropped and is not among them);
  - at most one message is missing;
  - once the sender is idle, nothing is missing and both bits agree.
- `scenarios.dfy` (module `Scenarios`) drives the two classes through three
  runs, with the network played by hand: a perfect channel, a data frame
  corrupted once, and an ack corrupted once.

The sender's `input` does not test `waitingForAck`, and the model does not
add that guard. Instead, `AlternatingBit.IdleSenderRejects` proves that an
idle sender never accepts anything that can be in flight.

## Model

| member | source | states |
|---|---|---|
| Frames.Xor1 | src/transport/Sender.java:132 | `^= 1` on a bit yields the other bit |
| Frames.Xor1FlipsLowBit | src/transport/Receiver.java:114 | `^= 1` keeps every bit above the lowest, flips the lowest, and never returns its argument |
| Frames.ByteSumBounds | src/transport/Sender.java:84-86 | the sum of n signed bytes lies in [-128n, 127n] |
| Frames.FrameSumSymmetric | src/transport/Receiver.java:79-88 | exchanging the sequence and ack arguments leaves the checksum unchanged, so both hosts' argument orders agree |
| Frames.FrameSumFitsInt | src/transport/Sender.java:82-89 | with a payload of at most 2^23 bytes and bit-valued fields, the final checksum lies within Java's `int` range |
| SenderEndpoint.DataFrame | src/transport/Sender.java:113 | the frame built for a message is uncorrupted, carries the bit in both fields, and carries the message |
| SenderEndpoint.SenderInit | src/transport/Sender.java:100-104 | `init` gives bit 0, no stored frame, not waiting, which satisfies the sender invariant |
| SenderEndpoint.OutputStep | src/transport/Sender.java:109-120 | while waiting, nothing changes and nothing is called; otherwise the frame is stored and sent, the timer is armed with 40, the sender waits, and the bit is kept; the invariant is preserved |
| SenderEndpoint.AckStep | src/transport/Sender.java:127-136 | a packet is rejected (no change, no call) exactly when the checksum or the ack bit is wrong; an accepted ack stops the timer, flips the bit, ends the wait and keeps the stored frame; the invariant is preserved |
| SenderEndpoint.TimeoutStep | src/transport/Sender.java:143-146 | a timeout resends the stored frame unchanged, re-arms the timer with 40, and changes no field |
| SenderEndpoint.AckAcceptedIsIntegrity | src/transport/Sender.java:129 | for an empty ack, the sender's test is the integrity test plus the bit comparison |
| SenderEndpoint.Sender.CheckSum | src/transport/Sender.java:81-90 | the byte-summing loop returns the byte sum plus both fields |
| SenderEndpoint.Sender.Init | src/transport/Sender.java:100-104 | the fields after `init` are those of `SenderInit`, with an empty trace |
| SenderEndpoint.Sender.Output | src/transport/Sender.java:109-120 | new fields and calls are those of `OutputStep`; nothing changes while waiting; the invariant holds |
| SenderEndpoint.Sender.Input | src/transport/Sender.java:127-136 | new fields and calls are those of `AckStep`; a rejected packet changes nothing; the stored frame is never touched |
| SenderEndpoint.Sender.TimerInterrupt | src/transport/Sender.java:143-146 | while the timer runs, the calls are those of `TimeoutStep` and no field changes |
| ReceiverEndpoint.AckFor | src/transport/Receiver.java:111 | the ack is uncorrupted, has an empty payload, and echoes both bit fields of the frame |
| ReceiverEndpoint.ReceiverInit | src/transport/Receiver.java:93-99 | `init` gives expected bit 0 and no stored ack, which satisfies the receiver invariant |
| ReceiverEndpoint.DataStep | src/transport/Receiver.java:105-124 | an accepted frame is delivered once, acked with a stored and sent ack, and flips the bit; any other packet changes nothing and resends the stored ack if there is one; the delivered payloads are exactly the accepted frame's; the invariant is preserved |
| ReceiverEndpoint.BranchesAreComplementary | src/transport/Receiver.java:116 | the `else if` guard is exactly the negation of the `if` guard |
| ReceiverEndpoint.Receiver.CheckSum | src/transport/Receiver.java:79-88 | the byte-summing loop returns the byte sum plus both fields |
| ReceiverEndpoint.Receiver.Init | src/transport/Receiver.java:93-99 | the fields after `init` are those of `ReceiverInit`, with an empty trace |
| ReceiverEndpoint.Receiver.Input | src/transport/Receiver.java:105-124 | new fields and calls are those of `DataStep`; the invariant holds |
| Lockstep.SenderFramePassesReceiver | src/transport/Receiver.java:107 | a frame built by the sender is accepted by the receiver exactly when the receiver expects the sender's bit |
| Lockstep.ReceiverAckPassesSender | src/transport/Sender.java:129 | an ack built by the receiver passes the sender's checksum test, and is accepted exactly when it echoes the sender's bit |
| Lockstep.OneRoundLockstep | src/transport/Sender.java:109-136 | frame, delivery, ack and ack acceptance over a perfect channel: the message is delivered once, and both bits flip and agree again with the sender idle |
| Lockstep.RejectedReplays | src/transport/Receiver.java:116-121 | a receiver that rejects a packet answers any number of copies with its stored ack, and its state does not change |
| Lockstep.ReplayIsIdempotent | src/transport/Receiver.java:105-122 | copies of an accepted frame deliver nothing more, and each is answered with the same ack |
| Lockstep.RunAnswersEveryPacket | src/transport/Receiver.java:105-122 | the receiver sends at most one packet per inbound packet, and exactly one per packet once it has an ack stored |
| Lockstep.RunSendsOnlyAcks | src/transport/Receiver.java:111-120 | everything the receiver sends is an uncorrupted packet with an empty payload |
| Lockstep.RunKeepsLastAck | src/transport/Receiver.java:111-120 | the last packet sent is the ack the receiver keeps, and a run that sends nothing leaves the stored ack unchanged |
| Lockstep.RunDeliversAcceptedFrames | src/transport/Receiver.java:107-109 | over any inbound sequence, the payloads delivered are exactly those of the accepted frames, in order |
| Lockstep.AcceptedFramesAlternate | src/transport/Receiver.java:107-114 | over any inbound sequence, the accepted frames alternate in bit, starting from the expected bit |
| Lockstep.RunKeepsReceiverInv | src/transport/Receiver.java:105-124 | over any inbound sequence, the receiver invariant is kept, so the expected bit stays 0 or 1 |
| Lockstep.ExpectedBitCountsAccepted | src/transport/Receiver.java:114 | after any inbound sequence, the expected bit is the parity of the starting bit plus the number of accepted frames: it flipped once per accepted frame |
| Lockstep.AlternateFromAt | src/transport/Receiver.java:114 | in an alternating sequence starting at bit b, the i-th frame carries the parity of b + i, and neighbours differ |
| Lockstep.NoFrameDeliveredTwiceInARow | src/transport/Receiver.java:105-124 | over any inbound sequence, a delivered frame is never the next frame delivered: two consecutively accepted frames never carry the same bit |
| AlternatingBit.StartInv | src/transport/Sender.java:100-104 | the sender after its `init` and the receiver after its `init` (src/transport/Receiver.java:93-99), with empty channels, satisfy the system invariant |
| AlternatingBit.AppOutputBusyInv | src/transport/Sender.java:111 | a message offered while an ack is awaited leaves the whole system as it was |
| AlternatingBit.AppOutputIdleData | src/transport/Sender.java:111-119 | a message taken while idle is framed with the sender's bit and joins the data channel as the second copy phase |
| AlternatingBit.AppOutputIdleAcks | src/transport/Sender.java:111-119 | once the sender waits for the new frame's ack, the ack channel holds only copies of the previous frame's ack |
| AlternatingBit.AppOutputIdleInv | src/transport/Sender.java:111-119 | taking a message while idle keeps the system invariant |
| AlternatingBit.TimeoutInv | src/transport/Sender.java:143-146 | a timeout keeps the system invariant |
| AlternatingBit.ReceiverAcceptsOutstanding | src/transport/Receiver.java:107 | in a reachable system, a frame the receiver accepts is the one message not yet delivered, and every packet on its channel is a copy of it |
| AlternatingBit.ReceiverAcceptsData | src/transport/Receiver.java:107-114 | once the receiver delivers the outstanding frame, the data channel holds only copies of that frame |
| AlternatingBit.ReceiverAcceptsAcks | src/transport/Receiver.java:107-114 | the ack the receiver sends for the delivered frame joins the ack channel as its second copy phase |
| AlternatingBit.ReceiverAcceptsInv | src/transport/Receiver.java:107-114 | a frame the receiver accepts is the outstanding frame, and delivering and acking it keeps the system invariant |
| AlternatingBit.ReceiverRejectsInv | src/transport/Receiver.java:116-121 | rejecting a stale or corrupted packet and resending the last ack keeps the system invariant |
| AlternatingBit.IdleSenderRejects | src/transport/Sender.java:129 | an idle sender rejects every packet that can reach it, so the missing `waitingForAck` test is never needed |
| AlternatingBit.SenderAcceptsOutstanding | src/transport/Sender.java:129 | in a reachable system, an ack the sender accepts arrives while it waits, after delivery, and is the ack of its outstanding frame |
| AlternatingBit.SenderAcceptsInv | src/transport/Sender.java:129-135 | an ack the sender accepts is the ack of the outstanding frame, and accepting it keeps the system invariant |
| AlternatingBit.SenderRejectsInv | src/transport/Sender.java:127-136 | rejecting a stale or corrupted ack keeps the system invariant |
| AlternatingBit.NextInv | src/transport/Receiver.java:105-124 | every enabled event keeps the system invariant: the receiver's packet handler cited here, and the sender's handlers in src/transport/Sender.java:109-146 (message, ack, timeout) |
| AlternatingBit.RunInv | src/transport/Sender.java:109-146 | every finite run from an invariant state ends in an invariant state |
| AlternatingBit.Safety | src/transport/Receiver.java:107-114 | after any finite run, the delivered messages are a prefix of the submitted ones (those `output` took while idle), at most one is missing, and an idle sender means all are delivered with both bits equal |
| Scenarios.HelloSum | src/transport/Sender.java:81-90 | the bytes of "HELLO" sum to 372 |
| Scenarios.PerfectChannel | src/transport/Sender.java:109-136 | over a perfect channel, frame (0,0,372,"HELLO") is delivered once, acked with (0,0,0,""), and both hosts end on bit 1 with the sender idle |
| Scenarios.CorruptedFrame | src/transport/Sender.java:143-146 | a data frame corrupted once: no ack is sent, the identical frame is resent on timeout, and "HELLO" is delivered once |
| Scenarios.CorruptedAck | src/transport/Receiver.java:116-121 | an ack corrupted once: the frame is resent, the receiver treats it as a duplicate and resends the same ack, and "HELLO" is delivered once |

## Left out

- `NetworkHost` and `NetworkSimulator` are not part of this model. These are the base class, the event list and the simulated clock. The calls `udtSend`, `startTimer`, `stopTimer` and `deliverData` are recorded as actions in each host's `trace`.
- The timer interval is a `double` in Java. It is recorded as the integer 40 in a `StartTimer` action.
- `String.getBytes()` and its platform charset are not modelled. A payload is a sequence of signed byte values in [-128, 127].
- `Message` and `Packet` are not part of this model (plain getters and setters). They are replaced by the `Packet` datatype and a payload sequence.
- The constructors taking `entityName` only forward to the base class. `Sender.Init` and `Receiver.Init` model construction followed by `init`.
- SenderEndpoint.Sender.CheckSum: uses unbounded integers and does not model 32-bit wrap-around. `Frames.FrameSumFitsInt` shows that the final checksum of a frame with a payload of up to 2^23 bytes fits in an `int`, so Java's wrapped sum (the true sum modulo 2^32) equals the unbounded one; the running sums inside the loop are not bounded separately.
- ReceiverEndpoint.Receiver.CheckSum: uses unbounded integers. A corrupted packet whose fields are near the `int` limits could wrap in Java, and that is not modelled.
- SenderEndpoint.Sender.TimerInterrupt: requires a running timer (started by `output` or a previous expiry and not stopped since). This holds because the method is only called when the timer expires, so the null `currentPacket` case is not modelled.
- AlternatingBit.Safety: corruption that the additive checksum cannot detect is not modelled. In the composed system, a corrupted packet is one the receiving host's test rejects.
- AlternatingBit.Safety: speaks only of the messages `output` took while the sender was idle. `output` drops a message offered while an ack is awaited (src/transport/Sender.java:111), so such a message is never delivered, and the delivered list need not be a prefix of everything the application offered.
- Liveness is not modelled, because eventual delivery depends on how often the channel loses packets. `Safety` is stated over explicit finite event sequences, and `Scenarios` shows concrete runs that deliver.
