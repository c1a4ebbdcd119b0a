/**
 * Three runs of the two hosts, driven through their classes with the
 * network in between played by hand: a perfect channel, a data frame
 * corrupted once, and an ack corrupted once. In each, the receiving
 * application gets the message exactly once and both hosts end on bit 1.
 */
module Scenarios {
  import opened Frames
  import opened SenderEndpoint
  import opened ReceiverEndpoint

  /** The bytes of "HELLO". */
  const HELLO: seq<SByte> := [72, 69, 76, 76, 79]

  lemma HelloSum()
    ensures ByteSum(HELLO) == 372
  {
    var hell := HellPrefix();
    ByteSumSnoc(hell, 79);
    assert hell + [79] == HELLO;
  }

  /** The first four bytes of "HELLO", which add up to 293. */
  lemma HellPrefix() returns (hell: seq<SByte>)
    ensures hell == [72, 69, 76, 76] && ByteSum(hell) == 293
  {
    var h0: seq<SByte> := [];
    ByteSumSnoc(h0, 72);
    ByteSumSnoc(h0 + [72], 69);
    ByteSumSnoc(h0 + [72] + [69], 76);
    ByteSumSnoc(h0 + [72] + [69] + [76], 76);
    hell := h0 + [72] + [69] + [76] + [76];
  }

  lemma ByteSumSnoc(bytes: seq<SByte>, b: SByte)
    ensures ByteSum(bytes + [b]) == ByteSum(bytes) + b
  {
    assert (bytes + [b])[..|bytes|] == bytes;
  }

  /** A delivery followed by two sends of the same ack. */
  lemma DeliverThenAcks(data: seq<SByte>, ack: Packet)
    ensures Sent([Deliver(data), Send(ack), Send(ack)]) == [ack, ack]
    ensures Delivered([Deliver(data), Send(ack), Send(ack)]) == [data]
  {
    var trace := [Deliver(data), Send(ack), Send(ack)];
    assert trace[1..] == [Send(ack), Send(ack)];
    assert trace[1..][1..] == [Send(ack)];
    assert Sent(trace[1..][1..]) == [ack] && Delivered(trace[1..][1..]) == [];
  }

  /** A new sender and receiver, both after `init`. */
  method Hosts() returns (sender: Sender, receiver: Receiver)
    ensures fresh(sender) && fresh(receiver)
    ensures sender.Valid() && receiver.Valid()
    ensures sender.State() == SenderInit() && sender.trace == []
    ensures receiver.State() == ReceiverInit() && receiver.trace == []
  {
    sender := new Sender.Init();
    receiver := new Receiver.Init();
  }

  /**
   * Perfect channel: the sender transmits (0, 0, 372, "HELLO"), the receiver
   * delivers it and answers (0, 0, 0, ""), and the sender takes the ack,
   * moves to bit 1 and is idle again.
   */
  method PerfectChannel() returns (frame: Packet, ack: Packet, delivered: seq<seq<SByte>>, senderBit: int, receiverBit: int, idle: bool)
    ensures frame == Packet(0, 0, 372, HELLO)
    ensures ack == Packet(0, 0, 0, [])
    ensures delivered == [HELLO]
    ensures senderBit == receiverBit == 1 && idle
  {
    HelloSum();
    var sender, receiver := Hosts();
    sender.Output(HELLO);
    frame := sender.trace[0].packet;
    receiver.Input(frame);
    ack := receiver.trace[1].packet;
    sender.Input(ack);
    delivered := Delivered(receiver.trace);
    assert receiver.trace[1..] == [Send(ack)];
    senderBit, receiverBit, idle := sender.packetNumber, receiver.expectedSequenceNumber, !sender.waitingForAck;
  }

  /**
   * The data frame arrives corrupted once: the receiver has no ack yet and
   * sends nothing, the timer runs out, the identical frame is sent again and
   * delivered; the application gets "HELLO" once.
   */
  method CorruptedFrame() returns (first: Packet, resent: Packet, acks: seq<Packet>, delivered: seq<seq<SByte>>, senderBit: int, idle: bool)
    ensures first == resent == Packet(0, 0, 372, HELLO)
    ensures acks == [Packet(0, 0, 0, [])]
    ensures delivered == [HELLO]
    ensures senderBit == 1 && idle
  {
    HelloSum();
    var sender, receiver := Hosts();
    sender.Output(HELLO);
    first := sender.trace[0].packet;
    // the last byte is damaged on the way, the checksum field is not
    receiver.Input(first.(payload := [72, 69, 76, 76, 80]));
    assert ByteSum([72, 69, 76, 76, 80]) == 373 by {
      var hell := HellPrefix();
      ByteSumSnoc(hell, 80);
      assert hell + [80] == [72, 69, 76, 76, 80];
    }
    assert receiver.trace == [];
    sender.TimerInterrupt();
    resent := sender.trace[2].packet;
    receiver.Input(resent);
    var ack := receiver.trace[1].packet;
    sender.Input(ack);
    acks := Sent(receiver.trace);
    delivered := Delivered(receiver.trace);
    assert receiver.trace[1..] == [Send(ack)];
    assert Sent(receiver.trace[1..]) == [ack];
    senderBit, idle := sender.packetNumber, !sender.waitingForAck;
  }

  /**
   * The ack arrives corrupted once: the sender ignores it, the timer runs
   * out and the frame is sent again; the receiver, already on bit 1, treats
   * the copy as a duplicate and resends its stored ack, which the sender
   * takes. The application gets "HELLO" once.
   */
  method CorruptedAck() returns (acks: seq<Packet>, delivered: seq<seq<SByte>>, senderBit: int, receiverBit: int, idle: bool)
    ensures acks == [Packet(0, 0, 0, []), Packet(0, 0, 0, [])]
    ensures delivered == [HELLO]
    ensures senderBit == receiverBit == 1 && idle
  {
    HelloSum();
    var sender, receiver := Hosts();
    sender.Output(HELLO);
    var frame := sender.trace[0].packet;
    receiver.Input(frame);
    var ack := receiver.trace[1].packet;
    // the checksum field is damaged on the way
    sender.Input(ack.(checksum := 1));
    assert sender.waitingForAck;
    sender.TimerInterrupt();
    var resent := sender.trace[2].packet;
    receiver.Input(resent);
    var again := receiver.trace[2].packet;
    sender.Input(again);
    assert again == ack;
    assert receiver.trace == [Deliver(HELLO), Send(ack), Send(ack)];
    DeliverThenAcks(HELLO, ack);
    acks := Sent(receiver.trace);
    delivered := Delivered(receiver.trace);
    senderBit, receiverBit, idle := sender.packetNumber, receiver.expectedSequenceNumber, !sender.waitingForAck;
  }
}
