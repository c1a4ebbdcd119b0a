/**
 * Packets exchanged by the two transport hosts, the additive checksum both
 * hosts compute over them, and the calls a host makes into the simulated
 * network (udtSend, startTimer, stopTimer, deliverData), recorded as actions.
 */
module Frames {

  /** A Java `byte`: a payload is the sequence of signed bytes of its string. */
  type SByte = x: int | -128 <= x <= 127

  datatype Option<T> = None | Some(value: T)

  /** The simulator's packet: sequence field, ack field, checksum field and payload. */
  datatype Packet = Packet(seqnum: int, acknum: int, checksum: int, payload: seq<SByte>)

  /** One call of a host into the network layer below or the application above it. */
  datatype Action =
    | Send(packet: Packet)          // udtSend(packet)
    | StartTimer(increment: int)    // startTimer(increment)
    | StopTimer                     // stopTimer()
    | Deliver(data: seq<SByte>)     // deliverData(data)

  /** What one event handler leaves behind: the host's new state and the calls it made, in order. */
  datatype Step<S> = Step(next: S, actions: seq<Action>)

  /** The retransmission interval the sender arms its timer with. */
  const TIMER_INCREMENT := 40

  /** Bounds of a Java `int`. */
  const INT_MIN := -0x8000_0000
  const INT_MAX := 0x7fff_ffff

  predicate IsBit(x: int) {
    x == 0 || x == 1
  }

  /** Java's `x ^ 1` on an `int`: flips the lowest bit of the two's-complement value. */
  function Xor1(x: int): (r: int)
    ensures IsBit(x) ==> IsBit(r) && r == 1 - x
  {
    if x % 2 == 0 then x + 1 else x - 1
  }

  /** `Xor1` keeps every bit above the lowest and flips the lowest, so it never returns its argument. */
  lemma Xor1FlipsLowBit(x: int)
    ensures Xor1(x) / 2 == x / 2 && Xor1(x) % 2 == 1 - x % 2
    ensures Xor1(x) != x
  {
  }

  /** The bit carried by the k-th frame of a session (counting from 0). */
  function Bit(k: int): (b: int)
    ensures IsBit(b)
  {
    k % 2
  }

  /** Consecutive frames carry different bits: the next bit is the current one flipped. */
  lemma BitNext(k: int)
    ensures Bit(k + 1) == Xor1(Bit(k)) == 1 - Bit(k)
  {
  }

  /** Starting from the other bit is the same as one more step. */
  lemma BitFlipped(e: int, n: int)
    requires IsBit(e)
    ensures Bit(1 - e + n) == Bit(e + n + 1)
  {
    if e == 1 {
      assert e + n + 1 == (1 - e + n) + 2;
    }
  }

  /** Sum of the signed byte values, added up from the first byte to the last. */
  function ByteSum(bytes: seq<SByte>): int
  {
    if bytes == [] then 0 else ByteSum(bytes[..|bytes| - 1]) + bytes[|bytes| - 1]
  }

  lemma {:induction false} ByteSumBounds(bytes: seq<SByte>)
    ensures -128 * |bytes| <= ByteSum(bytes) <= 127 * |bytes|
  {
    if bytes != [] {
      ByteSumBounds(bytes[..|bytes| - 1]);
    }
  }

  /** The checksum both hosts compute: the payload's byte sum plus the sequence and ack fields. */
  function FrameSum(payload: seq<SByte>, seqnum: int, acknum: int): int
  {
    ByteSum(payload) + seqnum + acknum
  }

  /** Addition commutes, so exchanging the sequence and ack arguments does not change the checksum. */
  lemma FrameSumSymmetric(payload: seq<SByte>, a: int, b: int)
    ensures FrameSum(payload, a, b) == FrameSum(payload, b, a)
  {
  }

  /**
   * For a payload of at most 2^23 bytes and bit-valued fields the final
   * checksum lies inside Java's `int` range. Java's 32-bit sum is the true
   * sum modulo 2^32, so when the true sum fits it is the value Java computes.
   */
  lemma FrameSumFitsInt(payload: seq<SByte>, seqnum: int, acknum: int)
    requires |payload| <= 0x80_0000
    requires IsBit(seqnum) && IsBit(acknum)
    ensures INT_MIN <= FrameSum(payload, seqnum, acknum) <= INT_MAX
  {
    ByteSumBounds(payload);
  }

  /** A packet is uncorrupted when its checksum field equals the checksum recomputed over its own fields. */
  predicate Intact(p: Packet) {
    p.checksum == FrameSum(p.payload, p.seqnum, p.acknum)
  }

  /** The packets handed to udtSend, in order. */
  function Sent(actions: seq<Action>): seq<Packet>
  {
    if actions == [] then []
    else (if actions[0].Send? then [actions[0].packet] else []) + Sent(actions[1..])
  }

  /** The payloads handed to deliverData, in order. */
  function Delivered(actions: seq<Action>): seq<seq<SByte>>
  {
    if actions == [] then []
    else (if actions[0].Deliver? then [actions[0].data] else []) + Delivered(actions[1..])
  }

  /** Whether the sender's timer runs after `actions`, when it ran (`armed`) before them. */
  function TimerAfter(armed: bool, actions: seq<Action>): bool
    decreases |actions|
  {
    if actions == [] then armed
    else
      var now := match actions[0]
        case StartTimer(_) => true
        case StopTimer => false
        case _ => armed;
      TimerAfter(now, actions[1..])
  }

  lemma {:induction false} TimerAfterAppend(armed: bool, a: seq<Action>, b: seq<Action>)
    ensures TimerAfter(armed, a + b) == TimerAfter(TimerAfter(armed, a), b)
    decreases |a|
  {
    if a == [] {
      assert a + b == b;
    } else {
      var now := match a[0]
        case StartTimer(_) => true
        case StopTimer => false
        case _ => armed;
      assert (a + b)[1..] == a[1..] + b;
      TimerAfterAppend(now, a[1..], b);
    }
  }
}
