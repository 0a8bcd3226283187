/** A clean close that is not the official state CLOSED, in a concrete run (tcp_connection.cc, tcp_state.cc). */
module CloseCases {
  import opened Words
  import opened TCPConfig
  import opened WrappingIntegers
  import opened TCPSegments
  import opened Connecting
  import opened RoundTrips
  import R = Receiving
  import S = Sending
  import Lingering
  import Reassembly
  import TCPStates

  lemma RunConcat(c: Connection, a: seq<Event>, b: seq<Event>)
    ensures RunEvents(c, a + b) == RunEvents(RunEvents(c, a), b)
    decreases |a|
  {
    hide Apply;
    if a == [] {
      assert a + b == b;
    } else {
      assert (a + b)[1..] == a[1..] + b;
      RunConcat(Apply(c, a[0]), a[1..], b);
    }
  }

  // ---------------------------------------------------------------- from the end of both streams

  /** Both streams are over and acknowledged; a reset arrives, the owner connects again, and time passes. */
  function LateReset(c: Connection, rst: TCPSegment): seq<Event> {
    [Deliver(rst), ConnectEvent, TickEvent(10 * c.rtTimeout)]
  }

  lemma ResetAfterTheEnd(c: Connection, rst: TCPSegment)
    requires ConnInv(c) && c.active && FinishedCleanly(c) && rst.header.rst
    ensures var c2 := RunEvents(c, LateReset(c, rst)[..2]);
      var end := RunEvents(c, LateReset(c, rst));
      && ConnInv(c2) && c2.active && end == Tick(c2, 10 * c.rtTimeout)
      && !end.active && end.sender.retx <= MAX_RETX_ATTEMPTS && c2.sender.stream.error
  {
    hide ConnInv, SegmentReceived, Connect, Tick;
    var a, b, t := Deliver(rst), ConnectEvent, TickEvent(10 * c.rtTimeout);
    assert LateReset(c, rst)[..2] == [a, b] && [a, b] + [t] == LateReset(c, rst);
    var c1 := Apply(c, a);
    var c2 := Apply(c1, b);
    assert [a, b][1..] == [b] && [b][1..] == [] && [t][1..] == [];
    assert RunEvents(c, [a, b]) == RunEvents(c1, [b]) == RunEvents(c2, []) == c2;
    RunConcat(c, [a, b], [t]);
    assert RunEvents(c2, [t]) == RunEvents(Apply(c2, t), []) == Apply(c2, t);
    ApplyInv(c, a);
    ApplyInv(c1, b);
    ResetFails(c, rst);
    ConnectRevives(c1);
    TickCloses(c2);
  }

  lemma ResetFails(c: Connection, rst: TCPSegment)
    requires c.active && FinishedCleanly(c) && rst.header.rst
    ensures var c1 := Apply(c, Deliver(rst));
      FinishedCleanly(c1) && c1.sender.stream.error && c1.since == 0 && c1.rtTimeout == c.rtTimeout
  {
  }

  lemma ConnectRevives(c: Connection)
    requires ConnInv(c) && FinishedCleanly(c)
    ensures var c' := Apply(c, ConnectEvent);
      && c'.active && FinishedCleanly(c') && c'.sender.stream.error == c.sender.stream.error
      && c'.since == c.since && c'.rtTimeout == c.rtTimeout
  {
    assert S.NextSegment(c.sender) == None;
  }

  lemma TickCloses(c: Connection)
    requires ConnInv(c) && c.active && FinishedCleanly(c) && c.since == 0
    ensures !Tick(c, 10 * c.rtTimeout).active && Tick(c, 10 * c.rtTimeout).sender.retx <= MAX_RETX_ATTEMPTS
  {
    hide S.TracksSegments, R.ReceiverInv, MaximallyFilled;
    assert S.InFlight(c.sender.outstanding) == 0;
  }

  // ---------------------------------------------------------------- to the end of both streams

  /** The peer's SYN and FIN in one segment, acknowledging our SYN; and its acknowledgment of our FIN. */
  function SynFin(isn: U32, peer: U32, win: U16): TCPSegment {
    var h := DEFAULT_HEADER.(seqno := peer, syn := true, fin := true);
    TCPSegment(h.(ack := true, ackno := Wrap(1, isn), win := win), [])
  }

  function LastAck(isn: U32, peer: U32, win: U16): TCPSegment {
    TCPSegment(DEFAULT_HEADER.(seqno := Wrap(2, peer), ack := true, ackno := Wrap(2, isn), win := win), [])
  }

  /** Connect, end the stream without writing, and hear the peer twice. */
  function Opening(isn: U32, peer: U32, win: U16): seq<Event> {
    [ConnectEvent, EndEvent, Deliver(SynFin(isn, peer, win)), Deliver(LastAck(isn, peer, win))]
  }

  /** The SYN is out, the stream has ended empty. */
  ghost predicate Opened(c: Connection, isn: U32) {
    && ConnInv(c) && c.active && c.sender.isn == isn && c.sender.synSent && !c.sender.finSent
    && c.sender.next == 1 && c.sender.ackno == 0 && c.sender.stream.ended && c.sender.stream.all == []
    && c.receiver.isn.None? && Reassembly.Edge(c.receiver.reasm) > 0
  }

  lemma Opens(recvCapacity: nat, sendCapacity: nat, rtTimeout: U16, isn: U32)
    requires recvCapacity > 0
    ensures Opened(Apply(Apply(NewConnection(recvCapacity, sendCapacity, rtTimeout, isn), ConnectEvent), EndEvent), isn)
  {
    var c := NewConnection(recvCapacity, sendCapacity, rtTimeout, isn);
    NewConnInv(recvCapacity, sendCapacity, rtTimeout, isn);
    ApplyInv(c, ConnectEvent);
    var c1 := Apply(c, ConnectEvent);
    ApplyInv(c1, EndEvent);
    SynGoesOut(c);
    NothingFollows(c1);
  }

  lemma SynGoesOut(c: Connection)
    requires c.sender == S.NewSender(c.sender.stream.capacity, c.sender.initialRto, c.sender.isn)
    ensures var s := Apply(c, ConnectEvent).sender;
      && s.synSent && !s.finSent && s.next == 1 && s.ackno == 0 && s.window == 1
      && s.stream == c.sender.stream && s.isn == c.sender.isn
  {
    hide PushSegmentsOut;
    var s := c.sender;
    var seg := TCPSegment(S.HeaderAt(s).(syn := true), []);
    assert S.NextSegment(s) == Some(seg);
    assert S.NextSegment(S.Send(s, seg)) == None;
    assert S.FillWindow(S.Send(s, seg)) == S.Send(s, seg);
    assert S.FillWindow(s) == S.Send(s, seg);
    PushMovesQueue(c.(sender := S.FillWindow(s), active := true));
  }

  lemma PushMovesQueue(c: Connection)
    ensures PushSegmentsOut(c).sender == c.sender.(queue := [])
  {
  }

  lemma NothingFollows(c: Connection)
    requires c.sender.synSent && c.sender.next == 1 && c.sender.ackno == 0 && c.sender.window == 1
    ensures var s := Apply(c, EndEvent).sender;
      s == c.sender.(queue := [], stream := c.sender.stream.(ended := true))
  {
    hide PushSegmentsOut;
    assert S.NextSegment(S.EndStream(c.sender)) == None;
    PushMovesQueue(c.(sender := S.FillWindow(S.EndStream(c.sender))));
  }

  /** The SYN is acknowledged, the FIN has gone out, and the inbound stream is over. */
  ghost predicate HalfDone(c: Connection, isn: U32) {
    && ConnInv(c) && c.active && c.sender.isn == isn && c.sender.synSent && c.sender.finSent
    && c.sender.next == 2 && c.sender.ackno == 1 && c.sender.stream.ended && c.sender.stream.all == []
    && c.receiver.isn.Some? && c.receiver.reasm.out.ended
  }

  lemma SynFinIsTaken(c: Connection, isn: U32, peer: U32, win: U16)
    requires Opened(c, isn)
    ensures HalfDone(Apply(c, Deliver(SynFin(isn, peer, win))), isn)
  {
    hide ConnInv, R.Receive, SegmentReceived;
    var seg := SynFin(isn, peer, win);
    ApplyInv(c, Deliver(seg));
    AckMovesTo(c, seg, 1);
    FinGoesOut(c, seg);
    KnownReceiver(c);
    EndIsSeen(c.receiver, seg);
    DeliverSides(c, seg);
  }

  /** The acknowledgment opens the window, and the FIN is all there is to send. */
  lemma FinGoesOut(c: Connection, seg: TCPSegment)
    requires Opened(c, c.sender.isn) && !seg.header.rst && seg.header.ack && SegmentReceived(c, seg).sender.ackno == 1
    ensures var s := SegmentReceived(c, seg).sender;
      && s.synSent && s.finSent && s.next == 2 && s.isn == c.sender.isn && s.stream.ended && s.stream.all == []
  {
    hide R.Receive, S.AckReceived, Answer, NeedsAnswer, R.ReceiverInv;
    ReceivedInv(c, seg);
    S.AckInv(c.sender, seg.header.ackno, seg.header.win);
    AnswerInv(S.AckReceived(c.sender, seg.header.ackno, seg.header.win));
    var s := SegmentReceived(c, seg).sender;
    assert s.stream.all == [] && s.stream.ended;
    assert S.NextSegment(s).None?;
  }

  lemma KnownReceiver(c: Connection)
    requires ConnInv(c)
    ensures R.ReceiverInv(c.receiver)
  {
  }

  /** An empty FIN at the start of the stream ends it. */
  lemma EndIsSeen(rcv: R.Receiver, seg: TCPSegment)
    requires R.ReceiverInv(rcv) && rcv.isn.None? && Reassembly.Edge(rcv.reasm) > 0
    requires seg.header.syn && seg.header.fin && seg.payload == []
    ensures R.Receive(rcv, seg).isn.Some? && R.Receive(rcv, seg).reasm.out.ended
  {
    UnwrapWrap(0, seg.header.seqno, 1);
    assert R.AbsoluteSeqno(rcv, seg.header.seqno, seg) == 0;
    assert !Reassembly.Rejects(rcv.reasm, 0);
    Reassembly.PushKeepsMarks(rcv.reasm, [], 0, true);
  }

  lemma DeliverSides(c: Connection, seg: TCPSegment)
    requires c.active && !seg.header.rst
    ensures SegmentReceived(c, seg).receiver == R.Receive(c.receiver, seg) && SegmentReceived(c, seg).active
  {
  }

  lemma LastAckFinishes(c: Connection, isn: U32, peer: U32, win: U16)
    requires HalfDone(c, isn)
    ensures var c' := Apply(c, Deliver(LastAck(isn, peer, win))); ConnInv(c') && c'.active && FinishedCleanly(c')
  {
    hide ConnInv, R.Receive, SegmentReceived;
    var seg := LastAck(isn, peer, win);
    ApplyInv(c, Deliver(seg));
    AckMovesTo(c, seg, 2);
    DeliverSides(c, seg);
    Lingering.KeepsEnded(c.receiver, seg);
    KeepsIsn(c.receiver, seg);
    AllIsOver(c, SegmentReceived(c, seg));
    KeepsStream(c, seg);
  }

  lemma KeepsIsn(rcv: R.Receiver, seg: TCPSegment)
    requires rcv.isn.Some?
    ensures R.Receive(rcv, seg).isn.Some?
  {
  }

  lemma KeepsStream(c: Connection, seg: TCPSegment)
    requires ConnInv(c) && c.active && !seg.header.rst
    ensures var s := SegmentReceived(c, seg).sender;
      s.stream.all == c.sender.stream.all && s.stream.ended == c.sender.stream.ended
  {
    hide R.Receive, S.AckReceived, Answer, NeedsAnswer, R.ReceiverInv, S.SenderInv, MaximallyFilled;
    KnownSender(c);
    S.AckInv(c.sender, seg.header.ackno, seg.header.win);
    AnswerInv(if seg.header.ack then S.AckReceived(c.sender, seg.header.ackno, seg.header.win) else c.sender);
  }

  lemma AllIsOver(c: Connection, c': Connection)
    requires ConnInv(c) && ConnInv(c') && S.Extends(c.sender, c'.sender)
    requires c.sender.synSent && c.sender.finSent && c.sender.next == 2 && c'.sender.ackno == 2
    ensures c'.sender.synSent && c'.sender.finSent && c'.sender.next == 2 && c'.sender.outstanding == map[]
  {
    hide S.TracksSegments, R.ReceiverInv, MaximallyFilled;
  }

  /**
   The run: both streams end empty, a reset arrives while the endpoint lingers, its owner connects it again, and after
   ten timeouts it closes as cleanly as any, but with a failed stream, so not in the state CLOSED.
   */
  lemma CleanCloseAfterReset(recvCapacity: nat, sendCapacity: nat, rtTimeout: U16, isn: U32,
                             peer: U32, win: U16, rst: TCPSegment)
    requires recvCapacity > 0 && rst.header.rst
    ensures var start := NewConnection(recvCapacity, sendCapacity, rtTimeout, isn);
      var done := RunEvents(start, Opening(isn, peer, win));
      var before := RunEvents(done, LateReset(done, rst)[..2]);
      var end := Tick(before, 10 * done.rtTimeout);
      && RunEvents(start, Opening(isn, peer, win) + LateReset(done, rst)) == end
      && before.active && !end.active && end.sender.retx <= MAX_RETX_ATTEMPTS && before.sender.stream.error
      && TCPStates.StateOf(end) != TCPStates.Official(TCPStates.CLOSED)
  {
    hide ConnInv, Apply, Tick, FinishedCleanly, Opened, HalfDone;
    var start := NewConnection(recvCapacity, sendCapacity, rtTimeout, isn);
    Finishes(recvCapacity, sendCapacity, rtTimeout, isn, peer, win);
    var done := RunEvents(start, Opening(isn, peer, win));
    RunConcat(start, Opening(isn, peer, win), LateReset(done, rst));
    ResetAfterTheEnd(done, rst);
    var before := RunEvents(done, LateReset(done, rst)[..2]);
    TCPStates.CleanCloseIsClosed(before, 10 * done.rtTimeout);
  }

  lemma Finishes(recvCapacity: nat, sendCapacity: nat, rtTimeout: U16, isn: U32, peer: U32, win: U16)
    requires recvCapacity > 0
    ensures var done := RunEvents(NewConnection(recvCapacity, sendCapacity, rtTimeout, isn), Opening(isn, peer, win));
      ConnInv(done) && done.active && FinishedCleanly(done)
  {
    hide ConnInv, Apply, FinishedCleanly, Opened, HalfDone, SynFin, LastAck;
    var c0 := NewConnection(recvCapacity, sendCapacity, rtTimeout, isn);
    var events := Opening(isn, peer, win);
    var c2 := Apply(Apply(c0, ConnectEvent), EndEvent);
    Opens(recvCapacity, sendCapacity, rtTimeout, isn);
    SynFinIsTaken(c2, isn, peer, win);
    var c3 := Apply(c2, Deliver(SynFin(isn, peer, win)));
    LastAckFinishes(c3, isn, peer, win);
    assert events[1..][1..][1..][1..] == [];
    assert events[1..][1..][1..] == [events[3]];
    assert RunEvents(c0, events) == RunEvents(c2, events[1..][1..]) == RunEvents(c3, [events[3]]);
  }
}
