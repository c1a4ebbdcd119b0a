/**
 * The sending host of the alternating-bit (stop-and-wait) transport: it frames
 * one application message at a time with its current bit, sends it, arms a
 * retransmission timer, and waits for an uncorrupted ack carrying that bit.
 *
 * Each handler of class Sender is tied to a pure step function over
 * SenderState, so that properties of several events in a row can be stated
 * as lemmas about those functions.
 */
module SenderEndpoint {
  import opened Frames

  /** The fields of the sender: the bit of the frame in flight, the stored frame, and whether an ack is awaited. */
  datatype SenderState = SenderState(packetNumber: int, currentPacket: Option<Packet>, waitingForAck: bool)

  /** The frame the sender builds for `data` while its bit is `bit`: both bit fields carry `bit`. */
  function DataFrame(bit: int, data: seq<SByte>): (p: Packet)
    ensures Intact(p) && p.seqnum == bit && p.acknum == bit && p.payload == data
  {
    Packet(bit, bit, FrameSum(data, bit, bit), data)
  }

  /**
   * What every reachable sender state satisfies: the bit is 0 or 1, a stored
   * frame is one the sender built, and while an ack is awaited the stored
   * frame carries the current bit.
   */
  predicate SenderInv(s: SenderState) {
    && IsBit(s.packetNumber)
    && (s.currentPacket.Some? ==>
          var p := s.currentPacket.value;
          IsBit(p.seqnum) && p == DataFrame(p.seqnum, p.payload))
    && (s.waitingForAck ==> s.currentPacket.Some? && s.currentPacket.value.seqnum == s.packetNumber)
  }

  /** The state `init` establishes. */
  function SenderInit(): (s: SenderState)
    ensures SenderInv(s) && s.packetNumber == 0 && !s.waitingForAck && s.currentPacket.None?
  {
    SenderState(0, None, false)
  }

  /**
   * The sender's acceptance test for an inbound packet: the checksum field
   * equals the sum recomputed with an empty payload (the Java call passes the
   * ack field as the sequence argument and the sequence field as the ack
   * argument), and the ack field carries the sender's bit.
   */
  predicate AckAccepted(packetNumber: int, p: Packet) {
    p.checksum == FrameSum([], p.acknum, p.seqnum) && p.acknum == packetNumber
  }

  /** An application message: framed, sent and timed unless an ack is still awaited, in which case it is dropped. */
  function OutputStep(s: SenderState, data: seq<SByte>): (r: Step<SenderState>)
    ensures s.waitingForAck <==> r == Step(s, [])
    ensures !s.waitingForAck ==>
      && r.next == SenderState(s.packetNumber, Some(DataFrame(s.packetNumber, data)), true)
      && r.actions == [Send(r.next.currentPacket.value), StartTimer(TIMER_INCREMENT)]
    ensures SenderInv(s) ==> SenderInv(r.next)
  {
    if s.waitingForAck then Step(s, [])
    else
      var p := DataFrame(s.packetNumber, data);
      Step(SenderState(s.packetNumber, Some(p), true), [Send(p), StartTimer(TIMER_INCREMENT)])
  }

  /**
   * An inbound packet. An accepted ack stops the timer, flips the bit and
   * ends the wait; anything else changes nothing and calls nothing. The
   * stored frame is kept either way, and whether an ack is awaited is not
   * consulted.
   */
  function AckStep(s: SenderState, p: Packet): (r: Step<SenderState>)
    ensures !AckAccepted(s.packetNumber, p) <==> r == Step(s, [])
    ensures AckAccepted(s.packetNumber, p) ==>
      r == Step(SenderState(Xor1(s.packetNumber), s.currentPacket, false), [StopTimer])
    ensures SenderInv(s) ==> SenderInv(r.next)
  {
    if AckAccepted(s.packetNumber, p) then
      Step(SenderState(Xor1(s.packetNumber), s.currentPacket, false), [StopTimer])
    else
      Step(s, [])
  }

  /** A timer expiry: the stored frame is sent again, unchanged, and the timer re-armed; the state stays as it is. */
  function TimeoutStep(s: SenderState): (r: Step<SenderState>)
    requires s.currentPacket.Some?
    ensures r.next == s
    ensures r.actions == [Send(s.currentPacket.value), StartTimer(TIMER_INCREMENT)]
  {
    Step(s, [Send(s.currentPacket.value), StartTimer(TIMER_INCREMENT)])
  }

  /** For an ack without payload, the sender's test is the receiver's integrity test plus the bit comparison. */
  lemma AckAcceptedIsIntegrity(packetNumber: int, p: Packet)
    requires p.payload == []
    ensures AckAccepted(packetNumber, p) <==> Intact(p) && p.acknum == packetNumber
  {
  }

  class Sender {
    var packetNumber: int
    var currentPacket: Option<Packet>
    var waitingForAck: bool
    /** Every call this host has made into the network layer, oldest first. */
    var trace: seq<Action>

    function State(): SenderState
      reads this
    {
      SenderState(packetNumber, currentPacket, waitingForAck)
    }

    /** The state invariant, and: whenever the timer runs there is a stored frame to resend. */
    ghost predicate Valid()
      reads this
    {
      SenderInv(State()) && (TimerAfter(false, trace) ==> currentPacket.Some?)
    }

    /** The additive checksum, accumulated byte by byte as the Java loop does. */
    method CheckSum(sequenceNumber: int, ackNumber: int, payload: seq<SByte>) returns (checkSum: int)
      ensures checkSum == FrameSum(payload, sequenceNumber, ackNumber)
    {
      checkSum := 0;
      for i := 0 to |payload|
        invariant checkSum == ByteSum(payload[..i])
      {
        assert payload[..i + 1][..i] == payload[..i];
        checkSum := checkSum + payload[i];
      }
      assert payload[..|payload|] == payload;
      checkSum := checkSum + ackNumber;
      checkSum := checkSum + sequenceNumber;
    }

    /** Construction followed by `init`. */
    constructor Init()
      ensures Valid()
      ensures State() == SenderInit() && trace == []
    {
      packetNumber := 0;
      currentPacket := None;
      waitingForAck := false;
      trace := [];
    }

    method Output(message: seq<SByte>)
      requires Valid()
      modifies this
      ensures Valid()
      ensures old(waitingForAck) ==> unchanged(this)
      ensures State() == OutputStep(old(State()), message).next
      ensures trace == old(trace) + OutputStep(old(State()), message).actions
    {
      if !waitingForAck {
        var check := CheckSum(packetNumber, packetNumber, message);
        currentPacket := Some(Packet(packetNumber, packetNumber, check, message));
        trace := trace + [Send(currentPacket.value)];
        trace := trace + [StartTimer(TIMER_INCREMENT)];
        waitingForAck := true;
        TimerAfterAppend(false, old(trace), [Send(currentPacket.value), StartTimer(TIMER_INCREMENT)]);
      }
    }

    method Input(packet: Packet)
      requires Valid()
      modifies this
      ensures Valid()
      ensures !AckAccepted(old(packetNumber), packet) ==> unchanged(this)
      ensures currentPacket == old(currentPacket)
      ensures State() == AckStep(old(State()), packet).next
      ensures trace == old(trace) + AckStep(old(State()), packet).actions
    {
      var check := CheckSum(packet.acknum, packet.seqnum, []);
      if packet.checksum == check && packet.acknum == packetNumber {
        trace := trace + [StopTimer];
        packetNumber := Xor1(packetNumber);
        waitingForAck := false;
        TimerAfterAppend(false, old(trace), [StopTimer]);
      }
    }

    /** Only called when the timer armed by `output` or by a previous expiry runs out. */
    method TimerInterrupt()
      requires Valid() && TimerAfter(false, trace)
      modifies this
      ensures Valid()
      ensures State() == old(State())
      ensures trace == old(trace) + TimeoutStep(old(State())).actions
    {
      trace := trace + [Send(currentPacket.value)];
      trace := trace + [StartTimer(TIMER_INCREMENT)];
      TimerAfterAppend(false, old(trace), [Send(currentPacket.value), StartTimer(TIMER_INCREMENT)]);
    }
  }
}
