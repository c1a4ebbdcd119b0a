/**
 * The two hosts composed over the simulated network: one channel in each
 * direction, each delivering packets in the order they were sent, possibly
 * dropping or corrupting any of them. Every run of finitely many events,
 * chosen freely among those enabled, keeps an invariant from which it follows
 * that the receiving application gets exactly the messages the sender took
 * from its application, in order, none twice and at most one still missing.
 */
module AlternatingBit {
  import opened Frames
  import opened SenderEndpoint
  import opened ReceiverEndpoint

  /**
   * Both hosts, the sender's timer, the two channels (oldest packet first),
   * the messages the sender took from its application (calls of `output`
   * while idle), and the payloads the receiver delivered to its application.
   */
  datatype System = System(
    sender: SenderState,
    timerRunning: bool,
    receiver: ReceiverState,
    toReceiver: seq<Packet>,
    toSender: seq<Packet>,
    submitted: seq<seq<SByte>>,
    delivered: seq<seq<SByte>>)

  /** What can happen next: a host event, or the network delivering, corrupting or dropping the oldest packet of a channel. */
  datatype Event =
    | AppOutput(data: seq<SByte>)
    | Timeout
    | ArriveAtReceiver
    | CorruptAtReceiver(corrupted: Packet)
    | LoseToReceiver
    | ArriveAtSender
    | CorruptAtSender(corrupted: Packet)
    | LoseToSender

  function Start(): System {
    System(SenderInit(), false, ReceiverInit(), [], [], [], [])
  }

  /**
   * Whether `e` can happen in `sys`. A corrupted packet is one the receiving
   * host's checksum test rejects: the additive checksum cannot catch every
   * corruption, and undetected corruption is not modelled.
   */
  predicate Enabled(sys: System, e: Event) {
    match e
    case AppOutput(_) => true
    case Timeout => sys.timerRunning && sys.sender.currentPacket.Some?
    case ArriveAtReceiver => sys.toReceiver != []
    case CorruptAtReceiver(q) => sys.toReceiver != [] && !Intact(q)
    case LoseToReceiver => sys.toReceiver != []
    case ArriveAtSender => sys.toSender != []
    case CorruptAtSender(q) => sys.toSender != [] && q.checksum != FrameSum([], q.acknum, q.seqnum)
    case LoseToSender => sys.toSender != []
  }

  /** The receiver handles `p` in place of the oldest packet on its inbound channel. */
  function ReceiverHandles(sys: System, p: Packet): System
    requires sys.toReceiver != []
  {
    var step := DataStep(sys.receiver, p);
    sys.(receiver := step.next,
         toReceiver := sys.toReceiver[1..],
         toSender := sys.toSender + Sent(step.actions),
         delivered := sys.delivered + Delivered(step.actions))
  }

  /** The sender handles `p` in place of the oldest packet on its inbound channel. */
  function SenderHandles(sys: System, p: Packet): System
    requires sys.toSender != []
  {
    var step := AckStep(sys.sender, p);
    sys.(sender := step.next,
         timerRunning := TimerAfter(sys.timerRunning, step.actions),
         toSender := sys.toSender[1..])
  }

  function Next(sys: System, e: Event): System
    requires Enabled(sys, e)
  {
    match e
    case AppOutput(data) =>
      var step := OutputStep(sys.sender, data);
      sys.(sender := step.next,
           timerRunning := TimerAfter(sys.timerRunning, step.actions),
           toReceiver := sys.toReceiver + Sent(step.actions),
           submitted := if sys.sender.waitingForAck then sys.submitted else sys.submitted + [data])
    case Timeout =>
      var step := TimeoutStep(sys.sender);
      sys.(timerRunning := TimerAfter(sys.timerRunning, step.actions),
           toReceiver := sys.toReceiver + Sent(step.actions))
    case ArriveAtReceiver => ReceiverHandles(sys, sys.toReceiver[0])
    case CorruptAtReceiver(q) => ReceiverHandles(sys, q)
    case LoseToReceiver => sys.(toReceiver := sys.toReceiver[1..])
    case ArriveAtSender => SenderHandles(sys, sys.toSender[0])
    case CorruptAtSender(q) => SenderHandles(sys, q)
    case LoseToSender => sys.(toSender := sys.toSender[1..])
  }

  /** The system after the events `events`, in order; an event that cannot happen when its turn comes is skipped. */
  function Run(sys: System, events: seq<Event>): System
    decreases |events|
  {
    if events == [] then sys
    else Run(if Enabled(sys, events[0]) then Next(sys, events[0]) else sys, events[1..])
  }

  // ---------------------------------------------------------------------
  // Channel contents

  /**
   * The packets of `s` are copies of `a` followed by copies of `b`; a phase
   * that is None has no copies.
   */
  ghost predicate TwoPhase(s: seq<Packet>, a: Option<Packet>, b: Option<Packet>) {
    && (forall i :: 0 <= i < |s| ==> Some(s[i]) == a || Some(s[i]) == b)
    && (forall i, j :: 0 <= i < j < |s| && Some(s[i]) == b ==> s[j] == s[i])
  }

  ghost predicate AllAre(s: seq<Packet>, x: Packet) {
    forall i :: 0 <= i < |s| ==> s[i] == x
  }

  lemma ChannelHead(s: seq<Packet>, a: Option<Packet>, b: Option<Packet>)
    requires s != [] && TwoPhase(s, a, b)
    ensures Some(s[0]) == a || Some(s[0]) == b
  {
  }

  lemma TwoPhaseTail(s: seq<Packet>, a: Option<Packet>, b: Option<Packet>)
    requires s != [] && TwoPhase(s, a, b)
    ensures TwoPhase(s[1..], a, b)
  {
    forall i, j | 0 <= i < j < |s| - 1 && Some(s[1..][i]) == b
      ensures s[1..][j] == s[1..][i]
    {
      assert s[1..][i] == s[i + 1] && s[1..][j] == s[j + 1];
    }
  }

  lemma TwoPhaseAppendSecond(s: seq<Packet>, a: Option<Packet>, x: Packet)
    requires TwoPhase(s, a, Some(x))
    ensures TwoPhase(s + [x], a, Some(x))
  {
  }

  lemma TwoPhaseAppendFirst(s: seq<Packet>, x: Packet, b: Option<Packet>)
    requires AllAre(s, x)
    ensures TwoPhase(s + [x], Some(x), b)
  {
  }

  lemma AllAreTwoPhase(s: seq<Packet>, x: Packet, other: Option<Packet>)
    requires AllAre(s, x)
    ensures TwoPhase(s, Some(x), other) && TwoPhase(s, other, Some(x))
  {
  }

  lemma SecondPhaseOnly(s: seq<Packet>, a: Option<Packet>, b: Option<Packet>)
    requires TwoPhase(s, a, b) && s != [] && Some(s[0]) == b
    ensures AllAre(s, s[0]) && AllAre(s[1..], s[0])
  {
  }

  lemma FirstPhaseOnly(s: seq<Packet>, x: Packet)
    requires TwoPhase(s, Some(x), None)
    ensures AllAre(s, x)
  {
  }

  lemma SwapPhases(s: seq<Packet>, b: Option<Packet>)
    requires TwoPhase(s, None, b)
    ensures TwoPhase(s, b, None)
  {
  }

  lemma WidenSecond(s: seq<Packet>, a: Option<Packet>, b: Option<Packet>)
    requires TwoPhase(s, a, None)
    ensures TwoPhase(s, a, b)
  {
  }

  // ---------------------------------------------------------------------
  // What the handlers' action lists put on the channels and do to the timer

  lemma SendAndArm(p: Packet, armed: bool)
    ensures Sent([Send(p), StartTimer(TIMER_INCREMENT)]) == [p]
    ensures TimerAfter(armed, [Send(p), StartTimer(TIMER_INCREMENT)])
  {
    var actions := [Send(p), StartTimer(TIMER_INCREMENT)];
    assert actions[1..] == [StartTimer(TIMER_INCREMENT)];
    assert Sent(actions[1..]) == [];
  }

  lemma DeliverAndAck(data: seq<SByte>, p: Packet)
    ensures Sent([Deliver(data), Send(p)]) == [p]
    ensures Delivered([Deliver(data), Send(p)]) == [data]
  {
    var actions := [Deliver(data), Send(p)];
    assert actions[1..] == [Send(p)];
    assert Sent(actions[1..]) == [p] && Delivered(actions[1..]) == [];
  }

  // ---------------------------------------------------------------------
  // The invariant

  /** The k-th frame of the session; past the messages taken so far it is never consulted. */
  function FrameAt(submitted: seq<seq<SByte>>, k: int): Packet {
    if 0 <= k < |submitted| then DataFrame(Bit(k), submitted[k]) else DataFrame(Bit(k), [])
  }

  lemma FrameAtExtend(submitted: seq<seq<SByte>>, data: seq<SByte>, k: int)
    requires 0 <= k < |submitted|
    ensures FrameAt(submitted + [data], k) == FrameAt(submitted, k)
  {
    assert (submitted + [data])[k] == submitted[k];
  }

  /** The ack of the k-th frame: it depends only on the frame's bit, not on its payload. */
  function AckAt(k: int): Packet {
    AckFor(DataFrame(Bit(k), []))
  }

  /** On the way to the receiver: copies of the frame it delivered last, then copies of the frame it expects. */
  ghost function DataPhases(sys: System): (Option<Packet>, Option<Packet>) {
    var n, m := |sys.submitted|, |sys.delivered|;
    (if 1 <= m then Some(FrameAt(sys.submitted, m - 1)) else None,
     if m < n then Some(FrameAt(sys.submitted, m)) else None)
  }

  /**
   * On the way to the sender: copies of the ack of the frame before the
   * outstanding one, then (once the receiver has delivered it) copies of the
   * ack of the outstanding frame.
   */
  ghost function AckPhases(sys: System): (Option<Packet>, Option<Packet>) {
    var n, m := |sys.submitted|, |sys.delivered|;
    (if sys.sender.waitingForAck && n >= 2 then Some(AckAt(n - 2)) else None,
     if m == n && n >= 1 then Some(AckAt(n - 1)) else None)
  }

  /**
   * The hosts against the two message logs: the receiving application got a
   * prefix of what the sending application handed over, lacking at most the
   * frame in flight, and both hosts' bits are the parities of those counts.
   */
  ghost predicate HostsAgree(sys: System) {
    var n, m := |sys.submitted|, |sys.delivered|;
    && SenderInv(sys.sender)
    && ReceiverInv(sys.receiver)
    && m <= n <= m + 1
    && sys.delivered == sys.submitted[..m]
    && sys.timerRunning == sys.sender.waitingForAck
    && (sys.sender.waitingForAck ==>
          && n >= 1
          && sys.sender.packetNumber == Bit(n - 1)
          && sys.sender.currentPacket == Some(FrameAt(sys.submitted, n - 1)))
    && (!sys.sender.waitingForAck ==> m == n && sys.sender.packetNumber == Bit(n))
    && sys.receiver.expectedSequenceNumber == Bit(m)
    && sys.receiver.sndpkt == (if m == 0 then None else Some(AckAt(m - 1)))
  }

  /** On the way to the receiver: only copies the data phases allow. */
  ghost predicate DataInFlight(sys: System) {
    TwoPhase(sys.toReceiver, DataPhases(sys).0, DataPhases(sys).1)
  }

  /** On the way to the sender: only copies the ack phases allow. */
  ghost predicate AcksInFlight(sys: System) {
    TwoPhase(sys.toSender, AckPhases(sys).0, AckPhases(sys).1)
  }

  /** What every reachable system satisfies: the hosts agree with the logs, and the channels hold only the copies the phases allow. */
  ghost predicate Inv(sys: System) {
    HostsAgree(sys) && DataInFlight(sys) && AcksInFlight(sys)
  }

  lemma StartInv()
    ensures Inv(Start())
  {
  }

  /** The channels are not part of what the hosts agree on, nor of the phases. */
  lemma ChannelsOnly(sys: System, toReceiver: seq<Packet>, toSender: seq<Packet>)
    requires HostsAgree(sys)
    ensures
      var next := sys.(toReceiver := toReceiver, toSender := toSender);
      && HostsAgree(next)
      && DataPhases(next) == DataPhases(sys)
      && AckPhases(next) == AckPhases(sys)
  {
  }

  // ---------------------------------------------------------------------
  // Each event keeps the invariant

  /** A message offered while an ack is awaited is dropped, and nothing changes. */
  lemma AppOutputBusyInv(sys: System, data: seq<SByte>)
    requires Inv(sys) && sys.sender.waitingForAck
    ensures Next(sys, AppOutput(data)) == sys
  {
  }

  /** The state after the idle sender takes `data`: the framed message is in flight and the timer runs. */
  lemma AppOutputIdleNext(sys: System, data: seq<SByte>)
    requires !sys.sender.waitingForAck
    ensures
      var frame := DataFrame(sys.sender.packetNumber, data);
      Next(sys, AppOutput(data)) ==
        sys.(sender := SenderState(sys.sender.packetNumber, Some(frame), true),
             timerRunning := true,
             toReceiver := sys.toReceiver + [frame],
             submitted := sys.submitted + [data])
  {
    SendAndArm(DataFrame(sys.sender.packetNumber, data), sys.timerRunning);
  }

  lemma AppOutputIdleHosts(sys: System, data: seq<SByte>, toReceiver: seq<Packet>)
    requires HostsAgree(sys) && !sys.sender.waitingForAck
    ensures
      var frame := DataFrame(sys.sender.packetNumber, data);
      HostsAgree(sys.(sender := SenderState(sys.sender.packetNumber, Some(frame), true),
                      timerRunning := true,
                      toReceiver := toReceiver,
                      submitted := sys.submitted + [data]))
  {
    var n := |sys.submitted|;
    var submitted := sys.submitted + [data];
    assert submitted[..n] == sys.submitted;
    assert FrameAt(submitted, n) == DataFrame(sys.sender.packetNumber, data);
  }

  /** The framed message joins the data in flight as its second phase. */
  lemma AppOutputIdleData(sys: System, data: seq<SByte>, toSender: seq<Packet>)
    requires Inv(sys) && !sys.sender.waitingForAck
    ensures
      var frame := DataFrame(sys.sender.packetNumber, data);
      DataInFlight(sys.(toReceiver := sys.toReceiver + [frame], toSender := toSender, submitted := sys.submitted + [data]))
  {
    var n := |sys.submitted|;
    var frame := DataFrame(sys.sender.packetNumber, data);
    var next := sys.(toReceiver := sys.toReceiver + [frame], toSender := toSender, submitted := sys.submitted + [data]);
    if n >= 1 {
      FrameAtExtend(sys.submitted, data, n - 1);
    }
    assert FrameAt(next.submitted, n) == frame;
    assert DataPhases(next) == (DataPhases(sys).0, Some(frame));
    WidenSecond(sys.toReceiver, DataPhases(sys).0, Some(frame));
    TwoPhaseAppendSecond(sys.toReceiver, DataPhases(sys).0, frame);
  }

  /** Once the sender waits again, the last ack it may see becomes the stale one. */
  lemma AppOutputIdleAcks(sys: System, data: seq<SByte>, toReceiver: seq<Packet>)
    requires Inv(sys) && !sys.sender.waitingForAck
    ensures
      var frame := DataFrame(sys.sender.packetNumber, data);
      AcksInFlight(sys.(sender := SenderState(sys.sender.packetNumber, Some(frame), true),
                        toReceiver := toReceiver, submitted := sys.submitted + [data]))
  {
    var frame := DataFrame(sys.sender.packetNumber, data);
    var next := sys.(sender := SenderState(sys.sender.packetNumber, Some(frame), true),
                     toReceiver := toReceiver, submitted := sys.submitted + [data]);
    assert AckPhases(next) == (AckPhases(sys).1, None);
    SwapPhases(sys.toSender, AckPhases(sys).1);
  }

  lemma AppOutputIdleInv(sys: System, data: seq<SByte>)
    requires Inv(sys) && !sys.sender.waitingForAck
    ensures Inv(Next(sys, AppOutput(data)))
  {
    var frame := DataFrame(sys.sender.packetNumber, data);
    AppOutputIdleNext(sys, data);
    AppOutputIdleHosts(sys, data, sys.toReceiver + [frame]);
    AppOutputIdleData(sys, data, sys.toSender);
    AppOutputIdleAcks(sys, data, sys.toReceiver + [frame]);
    assert DataInFlight(Next(sys, AppOutput(data)));
    assert AcksInFlight(Next(sys, AppOutput(data)));
  }

  lemma TimeoutNext(sys: System)
    requires Enabled(sys, Timeout)
    ensures Next(sys, Timeout) == sys.(toReceiver := sys.toReceiver + [sys.sender.currentPacket.value])
  {
    SendAndArm(sys.sender.currentPacket.value, sys.timerRunning);
  }

  /** Another copy of the outstanding frame fits the data phases. */
  lemma TimeoutData(sys: System)
    requires HostsAgree(sys) && DataInFlight(sys) && sys.sender.waitingForAck
    ensures TwoPhase(sys.toReceiver + [sys.sender.currentPacket.value], DataPhases(sys).0, DataPhases(sys).1)
  {
    var n, m := |sys.submitted|, |sys.delivered|;
    var frame := FrameAt(sys.submitted, n - 1);
    if m == n {
      FirstPhaseOnly(sys.toReceiver, frame);
      TwoPhaseAppendFirst(sys.toReceiver, frame, None);
    } else {
      TwoPhaseAppendSecond(sys.toReceiver, DataPhases(sys).0, frame);
    }
  }

  /** The timer runs out: another copy of the outstanding frame joins the channel. */
  lemma TimeoutInv(sys: System)
    requires Inv(sys) && Enabled(sys, Timeout)
    ensures Inv(Next(sys, Timeout))
  {
    TimeoutNext(sys);
    ChannelsOnly(sys, sys.toReceiver + [sys.sender.currentPacket.value], sys.toSender);
    TimeoutData(sys);
  }

  /** A frame the receiver accepts is the outstanding frame, and every packet on its channel is a copy of it. */
  lemma ReceiverAcceptsOutstanding(sys: System)
    requires HostsAgree(sys) && DataInFlight(sys) && sys.toReceiver != []
    requires Accepts(sys.receiver.expectedSequenceNumber, sys.toReceiver[0])
    ensures |sys.delivered| < |sys.submitted|
    ensures sys.toReceiver[0] == FrameAt(sys.submitted, |sys.delivered|)
    ensures AllAre(sys.toReceiver[1..], sys.toReceiver[0])
  {
    var m := |sys.delivered|;
    var p := sys.toReceiver[0];
    ChannelHead(sys.toReceiver, DataPhases(sys).0, DataPhases(sys).1);
    if m >= 1 {
      BitNext(m - 1);
      assert p != FrameAt(sys.submitted, m - 1);
    }
    SecondPhaseOnly(sys.toReceiver, DataPhases(sys).0, DataPhases(sys).1);
  }

  /** The state after the receiver accepts `p`: delivered, acked, bit flipped. */
  lemma ReceiverAcceptsNext(sys: System, p: Packet)
    requires sys.toReceiver != [] && Accepts(sys.receiver.expectedSequenceNumber, p)
    ensures ReceiverHandles(sys, p) ==
      sys.(receiver := ReceiverState(Xor1(sys.receiver.expectedSequenceNumber), Some(AckFor(p))),
           toReceiver := sys.toReceiver[1..],
           toSender := sys.toSender + [AckFor(p)],
           delivered := sys.delivered + [p.payload])
  {
    DeliverAndAck(p.payload, AckFor(p));
  }

  lemma ReceiverAcceptsHosts(sys: System, toReceiver: seq<Packet>, toSender: seq<Packet>)
    requires HostsAgree(sys) && |sys.delivered| < |sys.submitted|
    ensures
      var m := |sys.delivered|;
      HostsAgree(sys.(receiver := ReceiverState(Xor1(sys.receiver.expectedSequenceNumber), Some(AckAt(m))),
                      toReceiver := toReceiver,
                      toSender := toSender,
                      delivered := sys.delivered + [sys.submitted[m]]))
  {
    var m := |sys.delivered|;
    BitNext(m);
    assert sys.submitted[..m + 1] == sys.submitted[..m] + [sys.submitted[m]];
  }

  /** Once the expected frame is delivered, the rest of the data channel is copies of the frame delivered last. */
  lemma ReceiverAcceptsData(sys: System, p: Packet, toSender: seq<Packet>)
    requires |sys.delivered| + 1 == |sys.submitted| && sys.toReceiver != []
    requires p == FrameAt(sys.submitted, |sys.delivered|) && AllAre(sys.toReceiver[1..], p)
    ensures
      var m := |sys.delivered|;
      DataInFlight(sys.(toReceiver := sys.toReceiver[1..], toSender := toSender, delivered := sys.delivered + [sys.submitted[m]]))
  {
    var m := |sys.delivered|;
    var next := sys.(toReceiver := sys.toReceiver[1..], toSender := toSender, delivered := sys.delivered + [sys.submitted[m]]);
    assert DataPhases(next) == (Some(p), None);
    AllAreTwoPhase(sys.toReceiver[1..], p, None);
  }

  /** The ack of the frame just delivered opens the second ack phase. */
  lemma ReceiverAcceptsAcks(sys: System, toReceiver: seq<Packet>)
    requires AcksInFlight(sys) && |sys.delivered| + 1 == |sys.submitted|
    ensures
      var m := |sys.delivered|;
      AcksInFlight(sys.(toReceiver := toReceiver, toSender := sys.toSender + [AckAt(m)], delivered := sys.delivered + [sys.submitted[m]]))
  {
    var m := |sys.delivered|;
    var ack := AckAt(m);
    var next := sys.(toReceiver := toReceiver, toSender := sys.toSender + [ack], delivered := sys.delivered + [sys.submitted[m]]);
    assert AckPhases(next) == (AckPhases(sys).0, Some(ack));
    WidenSecond(sys.toSender, AckPhases(sys).0, Some(ack));
    TwoPhaseAppendSecond(sys.toSender, AckPhases(sys).0, ack);
  }

  /** The receiver takes the frame it expects, which can only be the oldest packet on its channel, uncorrupted. */
  lemma ReceiverAcceptsInv(sys: System, p: Packet)
    requires Inv(sys) && sys.toReceiver != [] && p == sys.toReceiver[0]
    requires Accepts(sys.receiver.expectedSequenceNumber, p)
    ensures Inv(ReceiverHandles(sys, p))
  {
    var m := |sys.delivered|;
    ReceiverAcceptsOutstanding(sys);
    ReceiverAcceptsNext(sys, p);
    assert AckFor(p) == AckAt(m) && p.payload == sys.submitted[m];
    ReceiverAcceptsHosts(sys, sys.toReceiver[1..], sys.toSender + [AckAt(m)]);
    ReceiverAcceptsData(sys, p, sys.toSender + [AckAt(m)]);
    ReceiverAcceptsAcks(sys, sys.toReceiver[1..]);
  }

  /** The state after the receiver turns `p` down: only its stored ack, if any, is sent. */
  lemma ReceiverRejectsNext(sys: System, p: Packet)
    requires sys.toReceiver != [] && !Accepts(sys.receiver.expectedSequenceNumber, p)
    ensures ReceiverHandles(sys, p) ==
      sys.(toReceiver := sys.toReceiver[1..],
           toSender := sys.toSender + (if sys.receiver.sndpkt.Some? then [sys.receiver.sndpkt.value] else []))
  {
    if sys.receiver.sndpkt.Some? {
      assert Sent([Send(sys.receiver.sndpkt.value)]) == [sys.receiver.sndpkt.value];
    }
  }

  /** Another copy of the receiver's last ack fits the ack phases. */
  lemma ResentAckFits(sys: System)
    requires HostsAgree(sys) && AcksInFlight(sys) && sys.receiver.sndpkt.Some?
    ensures TwoPhase(sys.toSender + [sys.receiver.sndpkt.value], AckPhases(sys).0, AckPhases(sys).1)
  {
    var n, m := |sys.submitted|, |sys.delivered|;
    var ack := AckAt(m - 1);
    if m == n {
      TwoPhaseAppendSecond(sys.toSender, AckPhases(sys).0, ack);
    } else {
      FirstPhaseOnly(sys.toSender, ack);
      TwoPhaseAppendFirst(sys.toSender, ack, None);
    }
  }

  /** The receiver turns down a packet (a copy of the frame it delivered last, or a corrupted one) and resends its last ack. */
  lemma ReceiverRejectsInv(sys: System, p: Packet)
    requires Inv(sys) && sys.toReceiver != []
    requires !Accepts(sys.receiver.expectedSequenceNumber, p)
    ensures Inv(ReceiverHandles(sys, p))
  {
    var resend := if sys.receiver.sndpkt.Some? then [sys.receiver.sndpkt.value] else [];
    ReceiverRejectsNext(sys, p);
    ChannelsOnly(sys, sys.toReceiver[1..], sys.toSender + resend);
    TwoPhaseTail(sys.toReceiver, DataPhases(sys).0, DataPhases(sys).1);
    if sys.receiver.sndpkt.Some? {
      ResentAckFits(sys);
    } else {
      assert sys.toSender + resend == sys.toSender;
    }
  }

  /** An idle sender turns down whatever reaches it: only acks of frames it has already seen acknowledged can be in flight. */
  lemma IdleSenderRejects(sys: System)
    requires HostsAgree(sys) && AcksInFlight(sys) && sys.toSender != [] && !sys.sender.waitingForAck
    ensures !AckAccepted(sys.sender.packetNumber, sys.toSender[0])
  {
    var n := |sys.submitted|;
    ChannelHead(sys.toSender, AckPhases(sys).0, AckPhases(sys).1);
    if n == 0 {
      assert false;
    }
    BitNext(n - 1);
  }

  /** An ack the sender accepts is the ack of its outstanding frame, and every packet on its channel is a copy of it. */
  lemma SenderAcceptsOutstanding(sys: System)
    requires HostsAgree(sys) && AcksInFlight(sys) && sys.toSender != []
    requires AckAccepted(sys.sender.packetNumber, sys.toSender[0])
    ensures sys.sender.waitingForAck && |sys.delivered| == |sys.submitted|
    ensures sys.toSender[0] == AckAt(|sys.submitted| - 1)
    ensures AllAre(sys.toSender[1..], sys.toSender[0])
  {
    var n := |sys.submitted|;
    var p := sys.toSender[0];
    if !sys.sender.waitingForAck {
      IdleSenderRejects(sys);
      assert false;
    }
    ChannelHead(sys.toSender, AckPhases(sys).0, AckPhases(sys).1);
    if n >= 2 {
      BitNext(n - 2);
      assert p != AckAt(n - 2);
    }
    SecondPhaseOnly(sys.toSender, AckPhases(sys).0, AckPhases(sys).1);
  }

  /** The state after the sender accepts `p`: the timer is stopped, the bit flipped, the wait over. */
  lemma SenderAcceptsNext(sys: System, p: Packet)
    requires sys.toSender != [] && AckAccepted(sys.sender.packetNumber, p)
    ensures SenderHandles(sys, p) ==
      sys.(sender := SenderState(Xor1(sys.sender.packetNumber), sys.sender.currentPacket, false),
           timerRunning := false,
           toSender := sys.toSender[1..])
  {
    assert TimerAfter(sys.timerRunning, [StopTimer]) == TimerAfter(false, []);
  }

  lemma SenderAcceptsHosts(sys: System, toSender: seq<Packet>)
    requires HostsAgree(sys) && sys.sender.waitingForAck && |sys.delivered| == |sys.submitted|
    ensures HostsAgree(sys.(sender := SenderState(Xor1(sys.sender.packetNumber), sys.sender.currentPacket, false),
                            timerRunning := false,
                            toSender := toSender))
  {
    BitNext(|sys.submitted| - 1);
  }

  /** The waiting sender takes the ack of its outstanding frame, which can only be the oldest packet on its channel, uncorrupted. */
  lemma SenderAcceptsInv(sys: System, p: Packet)
    requires Inv(sys) && sys.toSender != [] && p == sys.toSender[0]
    requires AckAccepted(sys.sender.packetNumber, p)
    ensures Inv(SenderHandles(sys, p))
  {
    SenderAcceptsOutstanding(sys);
    SenderAcceptsNext(sys, p);
    SenderAcceptsHosts(sys, sys.toSender[1..]);
    var next := SenderHandles(sys, p);
    assert DataPhases(next) == DataPhases(sys);
    AllAreTwoPhase(sys.toSender[1..], p, None);
    assert AckPhases(next) == (None, Some(p));
  }

  /** The sender turns down a packet (a stale ack, or a corrupted one): only that packet leaves the channel. */
  lemma SenderRejectsInv(sys: System, p: Packet)
    requires Inv(sys) && sys.toSender != []
    requires !AckAccepted(sys.sender.packetNumber, p)
    ensures Inv(SenderHandles(sys, p))
  {
    assert SenderHandles(sys, p) == sys.(toSender := sys.toSender[1..]);
    ChannelsOnly(sys, sys.toReceiver, sys.toSender[1..]);
    TwoPhaseTail(sys.toSender, AckPhases(sys).0, AckPhases(sys).1);
  }

  lemma NextInv(sys: System, e: Event)
    requires Inv(sys) && Enabled(sys, e)
    ensures Inv(Next(sys, e))
  {
    match e
    case AppOutput(data) =>
      if sys.sender.waitingForAck {
        AppOutputBusyInv(sys, data);
      } else {
        AppOutputIdleInv(sys, data);
      }
    case Timeout =>
      TimeoutInv(sys);
    case ArriveAtReceiver =>
      var p := sys.toReceiver[0];
      if Accepts(sys.receiver.expectedSequenceNumber, p) {
        ReceiverAcceptsInv(sys, p);
      } else {
        ReceiverRejectsInv(sys, p);
      }
    case CorruptAtReceiver(q) =>
      ReceiverRejectsInv(sys, q);
    case LoseToReceiver =>
      ChannelsOnly(sys, sys.toReceiver[1..], sys.toSender);
      TwoPhaseTail(sys.toReceiver, DataPhases(sys).0, DataPhases(sys).1);
    case ArriveAtSender =>
      var p := sys.toSender[0];
      if AckAccepted(sys.sender.packetNumber, p) {
        SenderAcceptsInv(sys, p);
      } else {
        SenderRejectsInv(sys, p);
      }
    case CorruptAtSender(q) =>
      SenderRejectsInv(sys, q);
    case LoseToSender =>
      ChannelsOnly(sys, sys.toReceiver, sys.toSender[1..]);
      TwoPhaseTail(sys.toSender, AckPhases(sys).0, AckPhases(sys).1);
  }

  lemma {:induction false} RunInv(sys: System, events: seq<Event>)
    requires Inv(sys)
    ensures Inv(Run(sys, events))
    decreases |events|
  {
    if events != [] {
      var after := if Enabled(sys, events[0]) then Next(sys, events[0]) else sys;
      if Enabled(sys, events[0]) {
        NextInv(sys, events[0]);
      }
      RunInv(after, events[1..]);
    }
  }

  /**
   * Whatever the network does to the packets: the receiving application gets
   * the messages `output` took while the sender was idle, in the order taken
   * and none twice, and at most the last of them is still missing; once the
   * sender is idle again all of them have arrived and both hosts expect the
   * same bit. A message offered while an ack is awaited is dropped by
   * `output` and is not among them.
   */
  lemma Safety(events: seq<Event>)
    ensures
      var sys := Run(Start(), events);
      && |sys.delivered| <= |sys.submitted| <= |sys.delivered| + 1
      && sys.delivered == sys.submitted[..|sys.delivered|]
      && (!sys.sender.waitingForAck ==>
            sys.delivered == sys.submitted
            && sys.sender.packetNumber == sys.receiver.expectedSequenceNumber)
  {
    StartInv();
    RunInv(Start(), events);
  }
}
