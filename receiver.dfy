/**
 * The receiving host of the alternating-bit transport: it delivers the
 * payload of an uncorrupted frame carrying the expected bit, acknowledges it
 * and flips the bit; on any other frame it resends its last ack, if any.
 *
 * As for the sender, the handler of class Receiver is tied to a pure step
 * function over ReceiverState.
 */
module ReceiverEndpoint {
  import opened Frames

  /** The fields of the receiver: the bit it expects next and the last ack it sent. */
  datatype ReceiverState = ReceiverState(expectedSequenceNumber: int, sndpkt: Option<Packet>)

  /** The ack the receiver builds for `p`: it echoes both bit fields and carries no payload. */
  function AckFor(p: Packet): (a: Packet)
    ensures Intact(a) && a.payload == []
    ensures a.seqnum == p.seqnum && a.acknum == p.acknum
  {
    Packet(p.seqnum, p.acknum, FrameSum([], p.seqnum, p.acknum), [])
  }

  /**
   * What every reachable receiver state satisfies: the expected bit is 0 or 1,
   * and a stored ack is an uncorrupted, empty ack for the bit before it.
   */
  predicate ReceiverInv(s: ReceiverState) {
    && IsBit(s.expectedSequenceNumber)
    && (s.sndpkt.Some? ==>
          && s.sndpkt.value.payload == []
          && Intact(s.sndpkt.value)
          && s.sndpkt.value.seqnum == Xor1(s.expectedSequenceNumber))
  }

  /** The state `init` establishes. */
  function ReceiverInit(): (s: ReceiverState)
    ensures ReceiverInv(s) && s.expectedSequenceNumber == 0 && s.sndpkt.None?
  {
    ReceiverState(0, None)
  }

  /** The receiver's acceptance test: the packet is uncorrupted and carries the expected bit. */
  predicate Accepts(expectedSequenceNumber: int, p: Packet) {
    p.checksum == FrameSum(p.payload, p.seqnum, p.acknum) && expectedSequenceNumber == p.seqnum
  }

  /**
   * An inbound frame. An accepted frame is delivered once, acknowledged by a
   * stored and sent ack, and the expected bit flips; any other frame changes
   * nothing and only resends the stored ack, when there is one.
   */
  function DataStep(s: ReceiverState, p: Packet): (r: Step<ReceiverState>)
    ensures Accepts(s.expectedSequenceNumber, p) ==>
      && r.next == ReceiverState(Xor1(s.expectedSequenceNumber), Some(AckFor(p)))
      && r.actions == [Deliver(p.payload), Send(AckFor(p))]
    ensures !Accepts(s.expectedSequenceNumber, p) ==>
      && r.next == s
      && r.actions == (if s.sndpkt.Some? then [Send(s.sndpkt.value)] else [])
    ensures Delivered(r.actions) == (if Accepts(s.expectedSequenceNumber, p) then [p.payload] else [])
    ensures ReceiverInv(s) ==> ReceiverInv(r.next)
  {
    if Accepts(s.expectedSequenceNumber, p) then
      var acts := [Deliver(p.payload), Send(AckFor(p))];
      assert acts[1..] == [Send(AckFor(p))];
      assert Delivered(acts[1..]) == [];
      Step(ReceiverState(Xor1(s.expectedSequenceNumber), Some(AckFor(p))), [Deliver(p.payload), Send(AckFor(p))])
    else if s.sndpkt.Some? then
      Step(s, [Send(s.sndpkt.value)])
    else
      Step(s, [])
  }

  /**
   * The `else if` guard of the handler is the negation of its `if` guard, so
   * every inbound packet takes exactly one of the two branches.
   */
  lemma BranchesAreComplementary(expectedSequenceNumber: int, p: Packet)
    ensures (p.checksum != FrameSum(p.payload, p.seqnum, p.acknum) || expectedSequenceNumber != p.seqnum)
            <==> !Accepts(expectedSequenceNumber, p)
  {
  }

  class Receiver {
    var sndpkt: Option<Packet>
    var expectedSequenceNumber: int
    /** Every call this host has made into the network layer or the application, oldest first. */
    var trace: seq<Action>

    function State(): ReceiverState
      reads this
    {
      ReceiverState(expectedSequenceNumber, sndpkt)
    }

    ghost predicate Valid()
      reads this
    {
      ReceiverInv(State())
    }

    /** The additive checksum, accumulated byte by byte as the Java loop does. */
    method CheckSum(payload: seq<SByte>, ack: int, sequenceNumber: int) returns (checkSum: int)
      ensures checkSum == FrameSum(payload, sequenceNumber, ack)
    {
      checkSum := 0;
      for i := 0 to |payload|
        invariant checkSum == ByteSum(payload[..i])
      {
        assert payload[..i + 1][..i] == payload[..i];
        checkSum := checkSum + payload[i];
      }
      assert payload[..|payload|] == payload;
      checkSum := checkSum + sequenceNumber;
      checkSum := checkSum + ack;
    }

    /** Construction followed by `init`. */
    constructor Init()
      ensures Valid()
      ensures State() == ReceiverInit() && trace == []
    {
      sndpkt := None;
      expectedSequenceNumber := 0;
      trace := [];
    }

    method Input(packet: Packet)
      requires Valid()
      modifies this
      ensures Valid()
      ensures State() == DataStep(old(State()), packet).next
      ensures trace == old(trace) + DataStep(old(State()), packet).actions
    {
      var check := CheckSum(packet.payload, packet.acknum, packet.seqnum);
      if packet.checksum == check && expectedSequenceNumber == packet.seqnum {
        trace := trace + [Deliver(packet.payload)];
        var ackCheck := CheckSum([], packet.acknum, packet.seqnum);
        sndpkt := Some(Packet(packet.seqnum, packet.acknum, ackCheck, []));
        trace := trace + [Send(sndpkt.value)];
        expectedSequenceNumber := Xor1(expectedSequenceNumber);
      } else if packet.checksum != check || expectedSequenceNumber != packet.seqnum {
        if sndpkt.Some? {
          trace := trace + [Send(sndpkt.value)];
        }
      }
    }
  }
}
