/** What the receiving half of an endpoint does (tcp_receiver.cc), as functions on values. */
module Receiving {
  import opened Words
  import opened WrappingIntegers
  import opened ByteStreams
  import opened Reassembly
  import opened TCPSegments

  datatype Receiver = Receiver(reasm: Reassembler, isn: Option<U32>, finReceived: bool)

  function NewReceiver(capacity: nat): Receiver { Receiver(Fresh(capacity), None, false) }

  /** The stream index of a segment's first byte; the subtraction wraps in 64 bits for a segment before the stream. */
  function StreamIndex(absolute: U64, syn: bool): U64 {
    if syn then absolute else (absolute - 1) % TWO64
  }

  function AbsoluteSeqno(rcv: Receiver, isn: U32, seg: TCPSegment): U64 {
    Unwrap(seg.header.seqno, isn, (|rcv.reasm.out.all| + 1) % TWO64)
  }

  ghost function Receive(rcv: Receiver, seg: TCPSegment): Receiver {
    if rcv.isn.None? && !seg.header.syn then rcv
    else
      var isn := if rcv.isn.None? then seg.header.seqno else rcv.isn.value;
      var index := StreamIndex(AbsoluteSeqno(rcv, isn, seg), seg.header.syn);
      Receiver(Push(rcv.reasm, seg.payload, index, seg.header.fin), Some(isn), rcv.finReceived || seg.header.fin)
  }

  function ReadInbound(rcv: Receiver, len: nat): Receiver {
    rcv.(reasm := rcv.reasm.(out := Pop(rcv.reasm.out, len)))
  }

  /** The first sequence number still wanted, counting SYN and, once the stream has ended, FIN. */
  function NextWanted(rcv: Receiver): nat {
    |rcv.reasm.out.all| + 1 + (if rcv.finReceived && rcv.reasm.out.ended then 1 else 0)
  }

  function AckNo(rcv: Receiver): Option<U32> {
    if rcv.isn.None? then None else Some(Wrap(NextWanted(rcv), rcv.isn.value))
  }

  function WindowSize(rcv: Receiver): nat { Remaining(rcv.reasm.out) }

  ghost predicate ReceiverInv(rcv: Receiver) {
    && Inv(rcv.reasm)
    && (rcv.reasm.out.ended ==> rcv.reasm.eof.Some?)
    && (rcv.reasm.eof.Some? ==> rcv.finReceived)
    && (rcv.isn.None? ==>
        rcv.reasm.next == 0 && rcv.reasm.frags == map[] && rcv.reasm.eof.None? && !rcv.reasm.out.ended)
  }

  lemma ReceiveInv(rcv: Receiver, seg: TCPSegment)
    requires ReceiverInv(rcv)
    ensures ReceiverInv(Receive(rcv, seg))
    ensures rcv.isn.Some? ==> Receive(rcv, seg).isn == rcv.isn
  {
    if rcv.isn.Some? || seg.header.syn {
      var isn := if rcv.isn.None? then seg.header.seqno else rcv.isn.value;
      var index := StreamIndex(AbsoluteSeqno(rcv, isn, seg), seg.header.syn);
      PushInv(rcv.reasm, seg.payload, index, seg.header.fin);
      PushKeepsMarks(rcv.reasm, seg.payload, index, seg.header.fin);
    }
  }

  lemma ReadInv(rcv: Receiver, len: nat)
    requires ReceiverInv(rcv)
    ensures ReceiverInv(ReadInbound(rcv, len))
  {
  }

  lemma ReceiveKeepsError(rcv: Receiver, seg: TCPSegment)
    ensures Receive(rcv, seg).reasm.out.error == rcv.reasm.out.error
  {
    var isn := if rcv.isn.None? then seg.header.seqno else rcv.isn.value;
    PushKeepsMarks(rcv.reasm, seg.payload, StreamIndex(AbsoluteSeqno(rcv, isn, seg), seg.header.syn), seg.header.fin);
  }

  // ---------------------------------------------------------------- the advertised edge

  datatype Arrival = SegmentArrival(seg: TCPSegment) | ReadArrival(len: nat)

  ghost function Arrive(rcv: Receiver, a: Arrival): Receiver {
    match a
    case SegmentArrival(seg) => Receive(rcv, seg)
    case ReadArrival(len) => ReadInbound(rcv, len)
  }

  ghost function ArriveAll(rcv: Receiver, arrivals: seq<Arrival>): Receiver
    decreases |arrivals|
  {
    if arrivals == [] then rcv else ArriveAll(Arrive(rcv, arrivals[0]), arrivals[1..])
  }

  function RightEdge(rcv: Receiver): nat { NextWanted(rcv) + WindowSize(rcv) }

  /** The edge the peer reads off a segment: `_push_segments_out` clamps the window to 16 bits. */
  function ClampedEdge(rcv: Receiver): nat { NextWanted(rcv) + Min(WindowSize(rcv), TWO16 - 1) }

  /** The advertised edge is the edge the reassembler enforces, shifted by SYN and, once ended, FIN. */
  lemma RightEdgeIsEnforced(rcv: Receiver)
    requires ReceiverInv(rcv)
    ensures var fin := if rcv.finReceived && rcv.reasm.out.ended then 1 else 0;
      RightEdge(rcv) == Edge(rcv.reasm) + 1 + fin == rcv.reasm.out.read + rcv.reasm.out.capacity + 1 + fin
  {
  }

  ghost predicate EdgesAdvance(rcv: Receiver, rcv': Receiver) {
    && NextWanted(rcv) <= NextWanted(rcv')
    && RightEdge(rcv) <= RightEdge(rcv')
    && ClampedEdge(rcv) <= ClampedEdge(rcv')
  }

  lemma ArriveAdvances(rcv: Receiver, a: Arrival)
    requires ReceiverInv(rcv)
    ensures ReceiverInv(Arrive(rcv, a)) && EdgesAdvance(rcv, Arrive(rcv, a))
  {
    match a
    case ReadArrival(_) =>
    case SegmentArrival(seg) =>
      ReceiveInv(rcv, seg);
      if rcv.isn.Some? || seg.header.syn {
        var isn := if rcv.isn.None? then seg.header.seqno else rcv.isn.value;
        var index := StreamIndex(AbsoluteSeqno(rcv, isn, seg), seg.header.syn);
        PushInv(rcv.reasm, seg.payload, index, seg.header.fin);
        PushKeepsMarks(rcv.reasm, seg.payload, index, seg.header.fin);
      }
  }

  /**
   * Whatever arrives, honest or not, and however it is read, no advertised edge or acknowledgment is ever taken back.
   */
  lemma {:induction false} EdgesNeverRetreat(rcv: Receiver, arrivals: seq<Arrival>)
    requires ReceiverInv(rcv)
    ensures ReceiverInv(ArriveAll(rcv, arrivals)) && EdgesAdvance(rcv, ArriveAll(rcv, arrivals))
    decreases |arrivals|
  {
    if arrivals != [] {
      ArriveAdvances(rcv, arrivals[0]);
      EdgesNeverRetreat(Arrive(rcv, arrivals[0]), arrivals[1..]);
    }
  }
}
