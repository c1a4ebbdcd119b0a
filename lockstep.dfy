/**
 * Properties that relate the two hosts, or several events at one host: the
 * frames one side builds pass the other side's checks, one round of
 * frame and ack brings the two bits back into step, and replayed or
 * out-of-turn frames never reach the application twice.
 */
module Lockstep {
  import opened Frames
  import opened SenderEndpoint
  import opened ReceiverEndpoint

  /** `n` copies of `x`. */
  function Repeat<T>(x: T, n: nat): (r: seq<T>)
    ensures |r| == n && forall i :: 0 <= i < n ==> r[i] == x
  {
    if n == 0 then [] else [x] + Repeat(x, n - 1)
  }

  /** The payloads of a sequence of packets, in order. */
  function Payloads(ps: seq<Packet>): (r: seq<seq<SByte>>)
    ensures |r| == |ps| && forall i :: 0 <= i < |ps| ==> r[i] == ps[i].payload
  {
    if ps == [] then [] else [ps[0].payload] + Payloads(ps[1..])
  }

  /** The receiver handling the packets `ps` one after another, starting in `s`. */
  function RunReceiver(s: ReceiverState, ps: seq<Packet>): Step<ReceiverState>
    decreases |ps|
  {
    if ps == [] then Step(s, [])
    else
      var first := DataStep(s, ps[0]);
      var rest := RunReceiver(first.next, ps[1..]);
      Step(rest.next, first.actions + rest.actions)
  }

  /** The packets of `ps` that a receiver starting in `s` accepts, in order. */
  function AcceptedFrames(s: ReceiverState, ps: seq<Packet>): seq<Packet>
    decreases |ps|
  {
    if ps == [] then []
    else
      (if Accepts(s.expectedSequenceNumber, ps[0]) then [ps[0]] else [])
      + AcceptedFrames(DataStep(s, ps[0]).next, ps[1..])
  }

  lemma {:induction false} DeliveredAppend(a: seq<Action>, b: seq<Action>)
    ensures Delivered(a + b) == Delivered(a) + Delivered(b)
    decreases |a|
  {
    if a == [] {
      assert a + b == b;
    } else {
      var head := if a[0].Deliver? then [a[0].data] else [];
      assert (a + b)[0] == a[0];
      assert (a + b)[1..] == a[1..] + b;
      DeliveredAppend(a[1..], b);
      calc {
        Delivered(a + b);
        head + Delivered(a[1..] + b);
        head + (Delivered(a[1..]) + Delivered(b));
        (head + Delivered(a[1..])) + Delivered(b);
      }
    }
  }

  lemma {:induction false} SentAppend(a: seq<Action>, b: seq<Action>)
    ensures Sent(a + b) == Sent(a) + Sent(b)
    decreases |a|
  {
    if a == [] {
      assert a + b == b;
    } else {
      var head := if a[0].Send? then [a[0].packet] else [];
      assert (a + b)[0] == a[0];
      assert (a + b)[1..] == a[1..] + b;
      SentAppend(a[1..], b);
      calc {
        Sent(a + b);
        head + Sent(a[1..] + b);
        head + (Sent(a[1..]) + Sent(b));
        (head + Sent(a[1..])) + Sent(b);
      }
    }
  }

  /** A frame the sender builds is accepted by a receiver exactly when the receiver expects the sender's bit. */
  lemma SenderFramePassesReceiver(s: SenderState, data: seq<SByte>, r: ReceiverState)
    requires !s.waitingForAck
    ensures Accepts(r.expectedSequenceNumber, OutputStep(s, data).next.currentPacket.value)
            <==> r.expectedSequenceNumber == s.packetNumber
  {
  }

  /** An ack the receiver builds passes the sender's checksum test, and is accepted exactly when it echoes the sender's bit. */
  lemma ReceiverAckPassesSender(p: Packet, packetNumber: int)
    ensures AckAccepted(packetNumber, AckFor(p)) <==> p.acknum == packetNumber
  {
  }

  /**
   * One round over a perfect channel: the sender frames `data`, the receiver
   * delivers it once and acks it, the sender accepts the ack. Afterwards
   * both bits have flipped and agree again, and the sender is idle.
   */
  lemma OneRoundLockstep(s: SenderState, r: ReceiverState, data: seq<SByte>)
    requires SenderInv(s) && ReceiverInv(r)
    requires !s.waitingForAck && s.packetNumber == r.expectedSequenceNumber
    ensures
      var out := OutputStep(s, data);
      var frame := out.next.currentPacket.value;
      var rcv := DataStep(r, frame);
      var back := AckStep(out.next, AckFor(frame));
      && Sent(out.actions) == [frame]
      && Delivered(rcv.actions) == [data]
      && Sent(rcv.actions) == [AckFor(frame)]
      && back.actions == [StopTimer]
      && !back.next.waitingForAck
      && back.next.packetNumber == rcv.next.expectedSequenceNumber == 1 - s.packetNumber
  {
    var frame := DataFrame(s.packetNumber, data);
    OutputSendsFrame(s, data);
    AcceptedFrameIsAcked(r, frame);
  }

  lemma OutputSendsFrame(s: SenderState, data: seq<SByte>)
    requires !s.waitingForAck
    ensures Sent(OutputStep(s, data).actions) == [DataFrame(s.packetNumber, data)]
  {
    var actions := OutputStep(s, data).actions;
    assert actions[1..] == [StartTimer(TIMER_INCREMENT)];
    assert Sent(actions[1..]) == [];
  }

  lemma AcceptedFrameIsAcked(r: ReceiverState, p: Packet)
    requires Accepts(r.expectedSequenceNumber, p)
    ensures Sent(DataStep(r, p).actions) == [AckFor(p)]
  {
    var actions := DataStep(r, p).actions;
    assert actions[1..] == [Send(AckFor(p))];
    assert Sent(actions[1..]) == [AckFor(p)];
  }

  /** A receiver that rejects `p` and holds the ack `a` answers every copy of `p` with `a`, and changes nothing. */
  lemma {:induction false} RejectedReplays(s: ReceiverState, p: Packet, n: nat)
    requires !Accepts(s.expectedSequenceNumber, p) && s.sndpkt.Some?
    ensures RunReceiver(s, Repeat(p, n)) == Step(s, Repeat(Send(s.sndpkt.value), n))
  {
    if n > 0 {
      assert Repeat(p, n)[1..] == Repeat(p, n - 1);
      RejectedReplays(s, p, n - 1);
    }
  }

  /**
   * Replaying an accepted frame any number of times delivers nothing more:
   * each copy is answered with the same stored ack, and the receiver's state
   * stays where the first copy left it.
   */
  lemma ReplayIsIdempotent(s: ReceiverState, p: Packet, n: nat)
    requires Accepts(s.expectedSequenceNumber, p)
    ensures
      var after := DataStep(s, p).next;
      var replay := RunReceiver(after, Repeat(p, n));
      && replay == Step(after, Repeat(Send(AckFor(p)), n))
      && Delivered(replay.actions) == []
  {
    var after := DataStep(s, p).next;
    RejectedReplays(after, p, n);
    NothingDelivered(Repeat(Send(AckFor(p)), n));
  }

  lemma {:induction false} NothingDelivered(actions: seq<Action>)
    requires forall i :: 0 <= i < |actions| ==> actions[i].Send?
    ensures Delivered(actions) == []
    decreases |actions|
  {
    if actions != [] {
      NothingDelivered(actions[1..]);
    }
  }

  /** One inbound packet draws at most one send: the ack the receiver keeps afterwards, if it has one. */
  lemma StepSendsStoredAck(s: ReceiverState, p: Packet)
    ensures
      var step := DataStep(s, p);
      && Sent(step.actions) == (if step.next.sndpkt.Some? then [step.next.sndpkt.value] else [])
      && (s.sndpkt.Some? ==> step.next.sndpkt.Some?)
  {
    var step := DataStep(s, p);
    if Accepts(s.expectedSequenceNumber, p) {
      var ack := AckFor(p);
      assert step.actions[1..] == [Send(ack)];
      assert step.actions[1..][1..] == [];
      assert Sent(step.actions[1..]) == [ack] + Sent([]);
      assert Sent(step.actions) == [] + Sent(step.actions[1..]);
    } else if s.sndpkt.Some? {
      assert step.actions[1..] == [];
      assert Sent(step.actions) == [s.sndpkt.value] + Sent([]);
    }
  }

  /** The receiver sends at most one packet per inbound packet, and exactly one once it has an ack stored. */
  lemma {:induction false} RunAnswersEveryPacket(s: ReceiverState, ps: seq<Packet>)
    ensures
      var run := RunReceiver(s, ps);
      && |Sent(run.actions)| <= |ps|
      && (s.sndpkt.Some? ==> |Sent(run.actions)| == |ps| && run.next.sndpkt.Some?)
    decreases |ps|
  {
    if ps != [] {
      var first := DataStep(s, ps[0]);
      var rest := RunReceiver(first.next, ps[1..]);
      StepSendsStoredAck(s, ps[0]);
      SentAppend(first.actions, rest.actions);
      RunAnswersEveryPacket(first.next, ps[1..]);
      assert RunReceiver(s, ps) == Step(rest.next, first.actions + rest.actions);
    }
  }

  /** What the receiver builds in answer to a frame: an uncorrupted packet with no payload. */
  predicate IsAck(q: Packet) {
    q.payload == [] && Intact(q)
  }

  /** Everything the receiver sends is an uncorrupted ack with an empty payload. */
  lemma {:induction false} RunSendsOnlyAcks(s: ReceiverState, ps: seq<Packet>)
    requires ReceiverInv(s)
    ensures forall q :: q in Sent(RunReceiver(s, ps).actions) ==> IsAck(q)
    decreases |ps|
  {
    if ps != [] {
      var first := DataStep(s, ps[0]);
      var rest := RunReceiver(first.next, ps[1..]);
      StepSendsStoredAck(s, ps[0]);
      SentAppend(first.actions, rest.actions);
      RunSendsOnlyAcks(first.next, ps[1..]);
      assert RunReceiver(s, ps) == Step(rest.next, first.actions + rest.actions);
      assert forall q :: q in Sent(first.actions) ==> IsAck(q);
    }
  }

  /** The last packet the receiver sent is the ack it keeps; when it sent nothing its stored ack is unchanged. */
  lemma {:induction false} RunKeepsLastAck(s: ReceiverState, ps: seq<Packet>)
    ensures
      var run := RunReceiver(s, ps);
      var acks := Sent(run.actions);
      && (acks == [] ==> run.next.sndpkt == s.sndpkt)
      && (acks != [] ==> run.next.sndpkt == Some(acks[|acks| - 1]))
    decreases |ps|
  {
    if ps != [] {
      var first := DataStep(s, ps[0]);
      var rest := RunReceiver(first.next, ps[1..]);
      StepSendsStoredAck(s, ps[0]);
      SentAppend(first.actions, rest.actions);
      RunKeepsLastAck(first.next, ps[1..]);
      assert RunReceiver(s, ps) == Step(rest.next, first.actions + rest.actions);
      if Sent(rest.actions) == [] && Sent(first.actions) == [] {
        assert first.next.sndpkt == s.sndpkt;
      }
    }
  }

  /** Over any sequence of inbound packets, the receiver delivers exactly the payloads of the frames it accepts, in order. */
  lemma {:induction false} RunDeliversAcceptedFrames(s: ReceiverState, ps: seq<Packet>)
    ensures Delivered(RunReceiver(s, ps).actions) == Payloads(AcceptedFrames(s, ps))
    decreases |ps|
  {
    if ps != [] {
      var first := DataStep(s, ps[0]);
      var rest := RunReceiver(first.next, ps[1..]);
      var restAccepted := AcceptedFrames(first.next, ps[1..]);
      RunDeliversAcceptedFrames(first.next, ps[1..]);
      DeliveredAppend(first.actions, rest.actions);
      if Accepts(s.expectedSequenceNumber, ps[0]) {
        assert AcceptedFrames(s, ps) == [ps[0]] + restAccepted;
        assert Payloads([ps[0]] + restAccepted) == [ps[0].payload] + Payloads(restAccepted);
      } else {
        assert AcceptedFrames(s, ps) == restAccepted;
      }
    }
  }

  /** The frames carry the bits `b`, then the other bit, then `b` again, and so on. */
  predicate AlternateFrom(frames: seq<Packet>, b: int)
    decreases |frames|
  {
    frames == [] || (frames[0].seqnum == b && AlternateFrom(frames[1..], 1 - b))
  }

  /**
   * The frames a receiver accepts carry alternating bits, starting from the
   * bit it expects.
   */
  lemma {:induction false} AcceptedFramesAlternate(s: ReceiverState, ps: seq<Packet>)
    requires ReceiverInv(s)
    ensures AlternateFrom(AcceptedFrames(s, ps), s.expectedSequenceNumber)
    decreases |ps|
  {
    if ps != [] {
      var next := DataStep(s, ps[0]).next;
      var restAccepted := AcceptedFrames(next, ps[1..]);
      AcceptedFramesAlternate(next, ps[1..]);
      if Accepts(s.expectedSequenceNumber, ps[0]) {
        var accepted := [ps[0]] + restAccepted;
        assert AcceptedFrames(s, ps) == accepted;
        assert accepted[1..] == restAccepted;
      } else {
        assert AcceptedFrames(s, ps) == restAccepted;
      }
    }
  }

  /** After any sequence of inbound packets the receiver invariant still holds. */
  lemma {:induction false} RunKeepsReceiverInv(s: ReceiverState, ps: seq<Packet>)
    requires ReceiverInv(s)
    ensures ReceiverInv(RunReceiver(s, ps).next)
    decreases |ps|
  {
    if ps != [] {
      RunKeepsReceiverInv(DataStep(s, ps[0]).next, ps[1..]);
    }
  }

  /** After any sequence of inbound packets the expected bit has flipped once per accepted frame. */
  lemma {:induction false} ExpectedBitCountsAccepted(s: ReceiverState, ps: seq<Packet>)
    requires ReceiverInv(s)
    ensures RunReceiver(s, ps).next.expectedSequenceNumber == Bit(s.expectedSequenceNumber + |AcceptedFrames(s, ps)|)
    decreases |ps|
  {
    if ps != [] {
      var e := s.expectedSequenceNumber;
      var next := DataStep(s, ps[0]).next;
      var restAccepted := AcceptedFrames(next, ps[1..]);
      assert RunReceiver(s, ps).next == RunReceiver(next, ps[1..]).next;
      ExpectedBitCountsAccepted(next, ps[1..]);
      if Accepts(e, ps[0]) {
        var k := |restAccepted|;
        assert next.expectedSequenceNumber == 1 - e;
        assert RunReceiver(s, ps).next.expectedSequenceNumber == Bit(1 - e + k);
        BitFlipped(e, k);
        assert |AcceptedFrames(s, ps)| == k + 1;
      } else {
        assert AcceptedFrames(s, ps) == restAccepted;
      }
    }
  }

  /**
   * Alternating frames, read by position: the i-th carries the parity of
   * `b + i`, so two neighbours never carry the same bit.
   */
  lemma {:induction false} AlternateFromAt(frames: seq<Packet>, b: int)
    requires IsBit(b) && AlternateFrom(frames, b)
    ensures forall i :: 0 <= i < |frames| ==> frames[i].seqnum == Bit(b + i)
    ensures forall i :: 0 < i < |frames| ==> frames[i].seqnum != frames[i - 1].seqnum
    decreases |frames|
  {
    if frames != [] {
      AlternateFromAt(frames[1..], 1 - b);
      forall i | 1 <= i < |frames|
        ensures frames[i].seqnum == Bit(b + i)
      {
        assert frames[i] == frames[1..][i - 1];
        BitFlipped(b, i - 1);
      }
      forall i | 0 < i < |frames|
        ensures frames[i].seqnum != frames[i - 1].seqnum
      {
        BitNext(b + i - 1);
      }
    }
  }

  /**
   * Over any sequence of inbound packets, two frames the receiver accepts in
   * a row never carry the same bit: a copy of the frame just delivered is
   * never the next frame delivered. (The receiver alone does deliver a frame
   * again once a frame with the other bit came in between; that the sender
   * never lets this happen is `AlternatingBit.Safety`.)
   */
  lemma NoFrameDeliveredTwiceInARow(s: ReceiverState, ps: seq<Packet>)
    requires ReceiverInv(s)
    ensures
      var accepted := AcceptedFrames(s, ps);
      forall i :: 0 < i < |accepted| ==> accepted[i].seqnum != accepted[i - 1].seqnum
  {
    AcceptedFramesAlternate(s, ps);
    AlternateFromAt(AcceptedFrames(s, ps), s.expectedSequenceNumber);
  }
}
