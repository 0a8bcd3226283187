/** The endpoint object (tcp_connection.hh, tcp_connection.cc). */
module TCPConnections {
  import opened Words
  import opened TCPConfig
  import opened ByteStreams
  import opened TCPSegments
  import opened TCPReceivers
  import opened TCPSenders
  import opened Connecting
  import A = Applications
  import R = Receiving
  import S = Sending
  import Reassembly

  class TCPConnection {
    const rtTimeout: U16
    const receiver: TCPReceiver
    const sender: TCPSender
    var queue: seq<TCPSegment>
    var linger: bool
    var active: bool
    var since: nat

    ghost const Repr: set<object> :=
      {this, sender, sender.stream, receiver, receiver.reassembler, receiver.reassembler.output}

    ghost predicate Parts()
      reads Repr
    {
      sender.stream != receiver.reassembler.output && sender.Valid() && receiver.Valid()
    }

    ghost predicate Valid()
      reads Repr
    {
      Parts() && ConnInv(Model())
    }

    ghost function Model(): Connection
      requires Parts()
      reads Repr
    {
      Connection(rtTimeout, sender.Model(), receiver.Model(), queue, linger, active, since)
    }

    constructor (recvCapacity: nat, sendCapacity: nat, rtTimeout: U16, isn: U32)
      ensures Valid() && fresh(Repr)
      ensures Model() == NewConnection(recvCapacity, sendCapacity, rtTimeout, isn)
    {
      hide ConnInv, S.SenderInv, R.ReceiverInv;
      this.rtTimeout := rtTimeout;
      receiver := new TCPReceiver(recvCapacity);
      sender := new TCPSender(sendCapacity, rtTimeout, isn);
      queue, linger, active, since := [], true, true, 0;
      new;
      NewConnInv(recvCapacity, sendCapacity, rtTimeout, isn);
    }

    /** Take the sender's first queued segment. */
    method PopSender() returns (seg: TCPSegment)
      requires sender.Valid() && sender.queue != []
      modifies sender`queue
      ensures sender.Valid() && seg == old(sender.queue)[0]
      ensures sender.Model() == old(sender.Model()).(queue := old(sender.queue)[1..])
    {
      hide S.SenderInv;
      DropFront(sender.Model());
      seg := sender.queue[0];
      sender.queue := sender.queue[1..];
    }

    method StampSegment(unstamped: TCPSegment) returns (seg: TCPSegment)
      requires receiver.Valid()
      ensures seg == Stamp(receiver.Model(), unstamped)
    {
      seg := unstamped;
      var win := receiver.Window();
      seg := seg.(header := seg.header.(win := if win > TWO16 - 1 then TWO16 - 1 else win));
      var ackno := receiver.Ackno();
      if ackno.Some? {
        seg := seg.(header := seg.header.(ack := true, ackno := ackno.value));
      }
    }

    /** Stamp and move one segment. */
    method PushFront()
      requires Parts() && sender.queue != []
      modifies this`queue, sender`queue
      ensures Parts() && sender.queue == old(sender.queue)[1..]
      ensures sender.Model() == old(sender.Model()).(queue := old(sender.queue)[1..])
      ensures queue == old(queue) + [Stamp(receiver.Model(), old(sender.queue)[0])]
    {
      hide S.SenderInv, R.ReceiverInv, Stamp;
      var seg := PopSender();
      seg := StampSegment(seg);
      queue := queue + [seg];
    }

    /** Stamp and move every segment the sender has queued. */
    method PushOut()
      requires Parts()
      modifies this`queue, sender`queue
      ensures Parts() && Model() == PushSegmentsOut(old(Model()))
    {
      hide S.SenderInv, R.ReceiverInv, Stamp;
      ghost var segs := sender.queue;
      ghost var moved := 0;
      ghost var stamped := StampAll(receiver.Model(), segs);
      while sender.queue != []
        invariant Parts() && moved <= |segs|
        invariant sender.queue == segs[moved..] && queue == old(queue) + stamped[..moved]
        invariant sender.Model() == old(sender.Model()).(queue := segs[moved..])
        decreases |sender.queue|
      {
        PushFront();
        assert stamped[..moved + 1] == stamped[..moved] + [stamped[moved]];
        moved := moved + 1;
      }
      assert stamped[..moved] == stamped;
    }

    method FailStreams()
      requires Parts()
      modifies sender.stream, receiver.reassembler.output
      ensures Parts()
      ensures sender.Model() == S.FailStream(old(sender.Model()))
      ensures receiver.Model() == FailInbound(old(receiver.Model()))
    {
      hide S.SenderInv, R.ReceiverInv;
      S.StreamInv(sender.Model(), []);
      FailedInv(receiver.Model());
      sender.stream.SetError();
      receiver.reassembler.output.SetError();
    }

    /** The reset takes the front of the sender's queue. */
    method QueueReset()
      requires Parts()
      modifies this`queue, sender
      ensures Parts() && queue == old(queue) + [ResetSegment(old(sender.Model()))]
      ensures var s := S.SendEmpty(old(sender.Model())); sender.Model() == s.(queue := s.queue[1..])
      ensures receiver.Model() == old(receiver.Model())
    {
      hide S.SenderInv, R.ReceiverInv;
      sender.SendEmptySegment();
      var rst := PopSender();
      rst := rst.(header := rst.header.(ack := false, rst := true));
      queue := queue + [rst];
    }

    method Shutdown(sendRst: bool)
      requires Parts() && MaximallyFilled(sender.Model())
      modifies Repr
      ensures Valid() && Model() == UncleanShutdown(old(Model()), sendRst)
    {
      hide S.SenderInv, R.ReceiverInv, MaximallyFilled, ConnInv;
      ShutdownInv(Model(), sendRst);
      FailStreams();
      active := false;
      if sendRst {
        QueueReset();
      }
    }

    static lemma FailedInv(rcv: R.Receiver)
      requires R.ReceiverInv(rcv)
      ensures R.ReceiverInv(FailInbound(rcv)) && Reassembly.Inv(FailInbound(rcv).reasm)
    {
    }

    method FillAndPushOut()
      requires Parts()
      modifies this`queue, sender, sender.stream
      ensures Parts() && Model() == PushSegmentsOut(old(Model()).(sender := S.FillWindow(old(sender.Model()))))
    {
      sender.FillValid();
      PushOut();
    }

    method WriteBytes(data: seq<Byte>) returns (written: nat)
      requires Valid()
      modifies Repr
      ensures Valid() && Model() == WriteData(old(Model()), data)
      ensures written <= |data| && sender.stream.history == old(sender.stream.history) + data[..written]
      ensures written == A.Taken(old(Model()), |data|)
    {
      hide S.SenderInv, R.ReceiverInv, ConnInv, S.FillWindow, PushSegmentsOut, A.BreaksOff;
      ApplyInv(Model(), WriteEvent(data));
      A.WritesExactly(Model(), WriteEvent(data));
      KnownSender(Model());
      if !active {
        return 0;
      }
      S.StreamInv(sender.Model(), data);
      written := sender.stream.WriteBytes(data);
      FillAndPushOut();
    }

    method EndInput()
      requires Valid()
      modifies Repr
      ensures Valid() && Model() == EndInputStream(old(Model()))
    {
      hide S.SenderInv, R.ReceiverInv, ConnInv;
      ApplyInv(Model(), EndEvent);
      KnownSender(Model());
      S.StreamInv(sender.Model(), []);
      sender.stream.EndInput();
      FillAndPushOut();
    }

    method Open()
      requires Valid()
      modifies Repr
      ensures Valid() && Model() == Connect(old(Model()))
    {
      hide S.SenderInv, R.ReceiverInv, ConnInv;
      ApplyInv(Model(), ConnectEvent);
      sender.FillValid();
      active := true;
      PushOut();
    }

    method ReadBytes(len: nat) returns (bytes: seq<Byte>)
      requires Valid()
      modifies Repr
      ensures Valid() && Model() == ReadInbound(old(Model()), len)
      ensures bytes == Peek(old(receiver.reassembler.output.Model()), len)
    {
      hide S.SenderInv, R.ReceiverInv, ConnInv, Reassembly.Inv;
      ApplyInv(Model(), ReadEvent(len));
      R.ReadInv(receiver.Model(), len);
      ReadKeeps(receiver.reassembler.Model(), len);
      bytes := receiver.reassembler.output.Read(len);
    }

    static lemma ReadKeeps(r: Reassembly.Reassembler, len: nat)
      requires Reassembly.Inv(r)
      ensures Reassembly.Inv(r.(out := Pop(r.out, len)))
    {
    }

    method SegmentArrives(seg: TCPSegment)
      requires Valid()
      modifies Repr
      ensures Valid() && Model() == SegmentReceived(old(Model()), seg)
    {
      hide S.SenderInv, R.ReceiverInv, ConnInv, R.Receive, S.AckReceived, Answer, NeedsAnswer, MaximallyFilled;
      hide SegmentReceived, PushSegmentsOut, UncleanShutdown;
      ghost var before := Model();
      ApplyInv(before, Deliver(seg));
      SegmentCases(before, seg);
      if !active { return; }
      since := 0;
      if seg.header.rst {
        KnownFilled(before);
        Shutdown(false);
        return;
      }
      Process(seg);
      AnswerIfNeeded(seg);
      assert Model() == BeforePush(before, seg);
      PushOut();
    }

    /** Hand the segment to the receiver and its acknowledgment to the sender; note a passive close. */
    method Process(seg: TCPSegment)
      requires Parts()
      modifies Repr
      ensures Parts() && active == old(active) && since == old(since) && queue == old(queue)
      ensures receiver.Model() == R.Receive(old(receiver.Model()), seg)
      ensures sender.Model() ==
        if seg.header.ack then S.AckReceived(old(sender.Model()), seg.header.ackno, seg.header.win)
        else old(sender.Model())
      ensures linger == (old(linger) && !(receiver.Model().reasm.out.ended && !Eof(sender.Model().stream)))
    {
      hide S.SenderInv, R.ReceiverInv, R.Receive, S.AckReceived;
      receiver.SegmentReceived(seg);
      if seg.header.ack {
        sender.AckReceivedFromPeer(seg.header.ackno, seg.header.win);
      }
      if receiver.reassembler.output.inputEnded && !sender.stream.AtEof() {
        linger := false;
      }
    }

    method AnswerIfNeeded(seg: TCPSegment)
      requires Parts()
      modifies sender, sender.stream
      ensures Parts() && receiver.Model() == old(receiver.Model())
      ensures sender.Model() ==
        if NeedsAnswer(receiver.Model(), seg) then Answer(old(sender.Model())) else old(sender.Model())
    {
      hide S.SenderInv, R.ReceiverInv, S.FillWindow;
      var sendAckNeeded := Length(seg) > 0;
      var ackno := receiver.Ackno();
      if ackno.Some? && Length(seg) == 0 && seg.header.seqno == (ackno.value - 1) % TWO32 {
        sendAckNeeded := true;
      }
      if sendAckNeeded {
        sender.FillValid();
        if sender.queue == [] {
          sender.SendEmptySegment();
        }
      }
    }

    static lemma SegmentCases(c: Connection, seg: TCPSegment)
      ensures !c.active ==> SegmentReceived(c, seg) == c
      ensures c.active && seg.header.rst ==> SegmentReceived(c, seg) == UncleanShutdown(c.(since := 0), false)
      ensures c.active && !seg.header.rst ==> SegmentReceived(c, seg) == PushSegmentsOut(BeforePush(c, seg))
    {
    }

    static lemma KnownFilled(c: Connection)
      requires ConnInv(c)
      ensures MaximallyFilled(c.sender)
    {
    }

    static lemma TickCases(c: Connection, ms: nat)
      ensures var c1 := c.(since := c.since + ms, sender := S.Tick(c.sender, ms));
        if !c.active then Tick(c, ms) == c
        else if c1.sender.retx > MAX_RETX_ATTEMPTS then Tick(c, ms) == UncleanShutdown(c1, true)
        else
          var c2 := PushSegmentsOut(c1);
          Tick(c, ms) == c2.(active := c2.active && !(
            && c2.receiver.reasm.out.ended && Eof(c2.sender.stream) && S.InFlight(c2.sender.outstanding) == 0
            && (!c2.linger || c2.since >= 10 * c2.rtTimeout)))
    {
    }

    method TimePasses(ms: nat)
      requires Valid()
      modifies Repr
      ensures Valid() && Model() == Tick(old(Model()), ms)
    {
      hide S.SenderInv, R.ReceiverInv, ConnInv, MaximallyFilled, Tick, S.Tick, PushSegmentsOut;
      hide UncleanShutdown, S.InFlight, S.Extends;
      ghost var before := Model();
      ApplyInv(before, TickEvent(ms));
      KnownFilled(before);
      TickCases(before, ms);
      if !active { return; }
      since := since + ms;
      sender.TimePasses(ms);
      SameSegmentNext(before.sender, ms);
      if sender.retx > MAX_RETX_ATTEMPTS {
        Shutdown(true);
        return;
      }
      PushOut();
      CloseIfDone();
    }

    method CloseIfDone()
      requires Parts()
      modifies this`active
      ensures Parts() && Model() == old(Model()).(active := active)
      ensures active == (old(active) && !(
          && receiver.Model().reasm.out.ended && Eof(sender.Model().stream) && S.InFlight(sender.outstanding) == 0
          && (!linger || since >= 10 * rtTimeout)))
    {
      if receiver.reassembler.output.inputEnded && sender.stream.AtEof() {
        var inFlight := sender.BytesInFlight();
        if inFlight == 0 {
          if !linger {
            active := false;
          } else if since >= 10 * rtTimeout {
            active := false;
          }
        }
      }
    }
  }
}
