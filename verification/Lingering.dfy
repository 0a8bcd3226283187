/**
 What the linger flag is for (tcp_connection.cc; section 3.5 of RFC 793): an endpoint that need not linger after its
 streams finish has a peer that already knows that everything it sent has arrived.
 */
module Lingering {
  import opened Words
  import opened TCPConfig
  import opened WrappingIntegers
  import opened ByteStreams
  import opened TCPSegments
  import opened Connecting
  import opened EndToEnd
  import A = Applications
  import R = Receiving
  import S = Sending
  import Reassembly

  /** A FIN, other than on a reset, acknowledges everything up to `n`. */
  predicate FinAcks(seg: TCPSegment, n: nat, isn: U32) {
    seg.header.fin && !seg.header.rst ==> seg.header.ack && seg.header.ackno == Wrap(n, isn)
  }

  /**
   `x` has cleared its linger flag: its inbound stream had ended before it sent its FIN, so every FIN of `x`
   acknowledges all of `y`, and `y`, once it has taken a FIN, has nothing left unacknowledged.
   */
  ghost predicate NoNeedToLinger(x: Connection, y: Connection, xy: set<TCPSegment>) {
    && x.receiver.reasm.out.ended
    && (forall seg :: seg in xy || seg in x.queue ==> FinAcks(seg, y.sender.next, y.sender.isn))
    && (y.receiver.reasm.eof.Some? ==> y.sender.ackno == y.sender.next)
  }

  ghost predicate LingerInv(x: Connection, y: Connection, xy: set<TCPSegment>) {
    !x.linger ==> NoNeedToLinger(x, y, xy)
  }

  ghost predicate LingerBoth(sys: System) {
    LingerInv(sys.left, sys.right, sys.toRight) && LingerInv(sys.right, sys.left, sys.toLeft)
  }

  /** Once `x` has seen the end of `y`, `y` has sent its FIN and `x` wants nothing more. */
  lemma EndIsAll(x: Connection, y: Connection, yx: set<TCPSegment>, xy: set<TCPSegment>)
    requires ConnInv(x) && ConnInv(y) && Flow(y, x, yx, xy) && x.receiver.reasm.out.ended
    ensures y.sender.finSent && Wanted(x) == y.sender.next < TWO32 / 2
    ensures R.AckNo(x.receiver) == Some(Wrap(y.sender.next, y.sender.isn))
  {
    WantedIsSent(y, x, yx, xy);
  }

  /** An endpoint that has sent no FIN has none in its queue or on the wire. */
  lemma NoFinYet(x: Connection, y: Connection, xy: set<TCPSegment>, yx: set<TCPSegment>)
    requires Flow(x, y, xy, yx) && !x.sender.finSent
    ensures forall seg :: seg in xy || seg in x.queue ==> !seg.header.fin
    ensures y.receiver.reasm.eof.None?
  {
    forall seg | seg in xy || seg in x.queue ensures !seg.header.fin {
      var absolute :| S.Carries(seg, absolute, x.sender);
    }
  }

  /**
   * The linger flag is cleared exactly by a segment after which the inbound stream is over and the outbound one is not,
   * which is only while the FIN is unsent.
   */
  lemma LingerCleared(c: Connection, e: Event)
    requires ConnInv(c)
    ensures var c' := Apply(c, e);
      && c'.linger == (c.linger && !(&& c.active && e.Deliver? && !e.seg.header.rst && c'.receiver.reasm.out.ended
                                     && !Eof(c'.sender.stream)))
      && (c.linger && !c'.linger ==> !c.sender.finSent)
      && (c.receiver.reasm.out.ended ==> c'.receiver.reasm.out.ended)
  {
    hide S.FillWindow, S.AckReceived, Answer, S.Tick, S.InFlight, NeedsAnswer, R.Receive, S.SenderInv, R.ReceiverInv,
         MaximallyFilled, StampAll;
    if e.Deliver? {
      KeepsEnded(c.receiver, e.seg);
      KnownSender(c);
      S.AckInv(c.sender, e.seg.header.ackno, e.seg.header.win);
      SentFinIsEof(c.sender);
      var acked := S.AckReceived(c.sender, e.seg.header.ackno, e.seg.header.win);
      SentFinIsEof(acked);
      StillFilled(c.sender, e.seg.header.ackno, e.seg.header.win);
      AnswerKeepsEof(c.sender);
      AnswerKeepsEof(acked);
    }
  }

  lemma StillFilled(s: S.Sender, ackno: U32, window: U16)
    requires S.SenderInv(s) && MaximallyFilled(s)
    ensures MaximallyFilled(S.AckReceived(s, ackno, window))
  {
    hide S.SenderInv, S.AckReceived, S.NextSegment, S.Extends;
    S.AckInv(s, ackno, window);
  }

  /** What is sent in answer cannot empty the buffer: what could go had gone before. */
  lemma AnswerKeepsEof(s: S.Sender)
    requires S.SenderInv(s) && MaximallyFilled(s)
    ensures Eof(Answer(s).stream) == Eof(s.stream)
  {
    hide S.SenderInv, S.Extends;
    if S.NextSegment(s).Some? { AnswerInv(s); }
  }

  lemma KeepsEnded(rcv: R.Receiver, seg: TCPSegment)
    ensures rcv.reasm.out.ended ==> R.Receive(rcv, seg).reasm.out.ended
    ensures R.Receive(rcv, seg).reasm.eof.Some? ==> rcv.reasm.eof.Some? || seg.header.fin
  {
    var isn := if rcv.isn.None? then seg.header.seqno else rcv.isn.value;
    var index := R.StreamIndex(R.AbsoluteSeqno(rcv, isn, seg), seg.header.syn);
    Reassembly.PushKeepsMarks(rcv.reasm, seg.payload, index, seg.header.fin);
  }

  lemma SentFinIsEof(s: S.Sender)
    requires S.SenderInv(s)
    ensures s.finSent ==> Eof(s.stream)
  {
  }

  // ---------------------------------------------------------------- how long it lingers

  /** The milliseconds that pass in a run. */
  function Ticked(events: seq<Event>): nat {
    if events == [] then 0 else (if events[0].TickEvent? then events[0].ms else 0) + Ticked(events[1..])
  }

  /** No segment comes in the run, and the endpoint stays active. */
  ghost predicate Silent(c: Connection, events: seq<Event>)
    decreases |events|
  {
    c.active && (events != [] ==> !events[0].Deliver? && Silent(Apply(c, events[0]), events[1..]))
  }

  lemma SinceMoves(c: Connection, e: Event)
    ensures var c' := Apply(c, e);
      && c'.rtTimeout == c.rtTimeout
      && (c.active && e.Deliver? ==> c'.since == 0)
      && (c.active && !e.Deliver? ==> c'.since == c.since + Ticked([e]))
  {
    hide S.FillWindow, S.Tick, S.InFlight, StampAll, ResetSegment, R.Receive, S.AckReceived, Answer, NeedsAnswer;
    assert Ticked([e][1..]) == 0;
  }

  lemma {:induction false} SilenceIsCounted(c: Connection, events: seq<Event>)
    requires Silent(c, events)
    ensures var end := RunEvents(c, events);
      end.active && end.since == c.since + Ticked(events) && end.rtTimeout == c.rtTimeout
    decreases |events|
  {
    hide Apply;
    if events != [] {
      SinceMoves(c, events[0]);
      assert Ticked([events[0]]) + Ticked(events[1..]) == Ticked(events) by { assert [events[0]][1..] == []; }
      SilenceIsCounted(Apply(c, events[0]), events[1..]);
    }
  }

  /**
   * Over every run of a new connection: an endpoint whose streams are over and that has to linger stays for ten of its
   * timeouts after the last segment it has received, whatever its application does meanwhile, and closes with the first
   * tick that completes them.
   */
  lemma LingersTenTimeouts(recvCapacity: nat, sendCapacity: nat, rtTimeout: U16, isn: U32, start: seq<Event>,
      last: TCPSegment, events: seq<Event>, ms: nat)
    requires var c := RunEvents(NewConnection(recvCapacity, sendCapacity, rtTimeout, isn), start);
      c.active && Silent(Apply(c, Deliver(last)), events)
    ensures var c := RunEvents(NewConnection(recvCapacity, sendCapacity, rtTimeout, isn), start);
      var before := RunEvents(Apply(c, Deliver(last)), events);
      FinishedCleanly(Tick(before, ms)) && Tick(before, ms).sender.retx <= 8 && before.linger ==>
        (Tick(before, ms).active <==> Ticked(events) + ms < 10 * rtTimeout)
  {
    hide ConnInv, Apply, FinishedCleanly, Silent, Tick, RunEvents;
    NewConnInv(recvCapacity, sendCapacity, rtTimeout, isn);
    RunKeepsTimeout(NewConnection(recvCapacity, sendCapacity, rtTimeout, isn), start);
    var c := RunEvents(NewConnection(recvCapacity, sendCapacity, rtTimeout, isn), start);
    var c1 := Apply(c, Deliver(last));
    var before := RunEvents(c1, events);
    ApplyInv(c, Deliver(last));
    SinceMoves(c, Deliver(last));
    SilenceIsCounted(c1, events);
    RunKeepsTimeout(c1, events);
    if FinishedCleanly(Tick(before, ms)) && Tick(before, ms).sender.retx <= 8 && before.linger {
      TickWaits(before, ms);
    }
  }

  lemma {:induction false} RunKeepsTimeout(c: Connection, events: seq<Event>)
    requires ConnInv(c)
    ensures ConnInv(RunEvents(c, events)) && RunEvents(c, events).rtTimeout == c.rtTimeout
    decreases |events|
  {
    hide ConnInv, Apply;
    if events != [] {
      ApplyInv(c, events[0]);
      SinceMoves(c, events[0]);
      RunKeepsTimeout(Apply(c, events[0]), events[1..]);
    }
  }

  lemma TickWaits(c: Connection, ms: nat)
    requires ConnInv(c) && c.active && c.linger && FinishedCleanly(Tick(c, ms))
    requires Tick(c, ms).sender.retx <= MAX_RETX_ATTEMPTS
    ensures Tick(c, ms).active <==> c.since + ms < 10 * c.rtTimeout
  {
    hide ConnInv, FinishedCleanly, Tick;
    TickKeepsLinger(c, ms);
    if Tick(c, ms).active { CloseIsComplete(c, ms); } else { CleanClose(c, ms); }
  }

  lemma TickKeepsLinger(c: Connection, ms: nat)
    requires c.active
    ensures Tick(c, ms).linger == c.linger && Tick(c, ms).since == c.since + ms
  {
    hide S.Tick, S.InFlight, StampAll, ResetSegment;
  }

  // ---------------------------------------------------------------- steps of the endpoint that need not linger

  lemma OwnCall(x: Connection, y: Connection, xy: set<TCPSegment>, yx: set<TCPSegment>, e: Event)
    requires ConnInv(x) && ConnInv(y) && Flow(x, y, xy, yx) && LingerInv(x, y, xy)
    requires ConnInv(Apply(x, e)) && Flow(y, Apply(x, e), yx, xy)
    ensures LingerInv(Apply(x, e), y, xy)
  {
    hide Flow, ConnInv, Apply, Wanted;
    var x' := Apply(x, e);
    LingerCleared(x, e);
    ApplyAcks(x, e);
    ApplyQueue(x, e);
    if !x'.linger {
      EndIsAll(x', y, yx, xy);
      if x.linger { NoFinYet(x, y, xy, yx); }
      forall seg | seg in xy || seg in x'.queue ensures FinAcks(seg, y.sender.next, y.sender.isn) {
        if seg in x'.queue && seg !in x.queue {
          assert x'.queue == x.queue + x'.queue[|x.queue|..];
          var i :| 0 <= i < |x'.queue| - |x.queue| && x'.queue[|x.queue|..][i] == seg;
          assert Acks(x'.queue[|x.queue| + i], x');
        }
      }
    }
  }

  lemma OwnTransmit(x: Connection, y: Connection, xy: set<TCPSegment>)
    requires LingerInv(x, y, xy) && x.queue != []
    ensures LingerInv(x.(queue := x.queue[1..]), y, xy + {x.queue[0]})
  {
    assert forall seg :: seg in x.queue[1..] ==> seg in x.queue;
    assert x.queue[0] in x.queue;
  }

  // ---------------------------------------------------------------- steps of its peer

  lemma PeerCall(x: Connection, y: Connection, xy: set<TCPSegment>, yx: set<TCPSegment>, e: Event)
    requires ConnInv(x) && ConnInv(y) && Flow(y, x, yx, xy) && LingerInv(x, y, xy)
    requires e.Deliver? ==> e.seg in xy
    ensures LingerInv(x, Apply(y, e), xy)
  {
    hide Flow, ConnInv, Apply, Wanted;
    var y' := Apply(y, e);
    ApplyInv(y, e);
    if !x.linger {
      EndIsAll(x, y, yx, xy);
      NumbersAreFinal(y, e);
      TakesFin(y, e);
    }
  }

  lemma NumbersAreFinal(y: Connection, e: Event)
    requires ConnInv(y) && ConnInv(Apply(y, e)) && S.Extends(y.sender, Apply(y, e).sender) && y.sender.finSent
    ensures var y' := Apply(y, e);
      && y'.sender.next == y.sender.next && y'.sender.isn == y.sender.isn
      && y.sender.ackno <= y'.sender.ackno <= y'.sender.next
  {
    hide Apply;
  }

  /** A FIN that is taken brings its acknowledgment along. */
  lemma TakesFin(y: Connection, e: Event)
    requires ConnInv(y) && y.sender.next < TWO32 / 2
    requires e.Deliver? ==> FinAcks(e.seg, y.sender.next, y.sender.isn)
    ensures Apply(y, e).receiver.reasm.eof.Some? ==>
      y.receiver.reasm.eof.Some? || Apply(y, e).sender.ackno == y.sender.next
  {
    hide ConnInv, R.Receive;
    ApplyReceiver(y, e);
    if e.Deliver? && y.active && !e.seg.header.rst {
      KeepsEnded(y.receiver, e.seg);
      if e.seg.header.fin { AckOfAll(y, e.seg); }
    }
  }

  lemma AckOfAll(y: Connection, seg: TCPSegment)
    requires ConnInv(y) && y.active && !seg.header.rst && seg.header.ack
    requires seg.header.ackno == Wrap(y.sender.next, y.sender.isn) && y.sender.next < TWO32 / 2
    ensures SegmentReceived(y, seg).sender.ackno == y.sender.next
  {
    hide S.SenderInv, S.AckReceived, Answer, R.Receive, R.ReceiverInv, MaximallyFilled, NeedsAnswer, S.Extends,
         S.NextSegment;
    KnownSender(y);
    AcknoWithin(y.sender);
    UnwrapWrap(y.sender.next, y.sender.isn, y.sender.ackno);
    S.AckInv(y.sender, seg.header.ackno, seg.header.win);
    AnswerInv(S.AckReceived(y.sender, seg.header.ackno, seg.header.win));
  }

  lemma AcknoWithin(s: S.Sender)
    requires S.SenderInv(s)
    ensures s.ackno <= s.next
  {
  }

  // ---------------------------------------------------------------- runs

  lemma LingerFlip(sys: System)
    ensures LingerBoth(sys) <==> LingerBoth(Flip(sys))
  {
  }

  lemma LeftStep(sys: System, step: Step)
    requires SystemInv(sys) && LingerBoth(sys) && step.side == Left && EnabledLeft(sys, step)
    requires SystemInv(NextLeft(sys, step))
    ensures LingerBoth(NextLeft(sys, step))
  {
    hide Flow, ConnInv, LingerInv, Apply;
    match step
    case Call(_, e) =>
      OwnCall(sys.left, sys.right, sys.toRight, sys.toLeft, e);
      PeerCall(sys.right, sys.left, sys.toLeft, sys.toRight, e);
    case Transmit(_) =>
      OwnTransmit(sys.left, sys.right, sys.toRight);
      SameToPeer(sys.right, sys.left, sys.toLeft, sys.left.queue[1..]);
  }

  lemma SameToPeer(x: Connection, y: Connection, xy: set<TCPSegment>, queue: seq<TCPSegment>)
    ensures LingerInv(x, y, xy) <==> LingerInv(x, y.(queue := queue), xy)
  {
  }

  lemma LingerStep(sys: System, step: Step)
    requires SystemInv(sys) && LingerBoth(sys) && Enabled(sys, step)
    ensures SystemInv(Next(sys, step)) && LingerBoth(Next(sys, step))
  {
    hide SystemInv, LingerBoth, EnabledLeft, NextLeft;
    StepInv(sys, step);
    if step.side == Left {
      LeftStep(sys, step);
    } else {
      FlipInv(sys);
      LingerFlip(sys);
      FlipInv(NextLeft(Flip(sys), FlipStep(step)));
      LeftStep(Flip(sys), FlipStep(step));
      LingerFlip(NextLeft(Flip(sys), FlipStep(step)));
    }
  }

  lemma {:induction false} LingerRun(sys: System, steps: seq<Step>, end: System)
    requires SystemInv(sys) && LingerBoth(sys) && Reaches(sys, steps, end)
    ensures SystemInv(end) && LingerBoth(end)
    decreases |steps|
  {
    hide SystemInv, LingerBoth, Enabled, Next;
    if steps != [] {
      LingerStep(sys, steps[0]);
      LingerRun(Next(sys, steps[0]), steps[1..], end);
    }
  }

  lemma InitialLingers(sys: System)
    requires Initial(sys)
    ensures LingerBoth(sys)
  {
  }

  /**
   Over every run: when a side closes cleanly without lingering, its peer has had everything acknowledged, so nothing
   the peer may still send needs an answer from the side that is gone.
   */
  lemma CloseWithoutLingering(sys: System, steps: seq<Step>, before: System, side: Side, ms: nat)
    requires Initial(sys) && Reaches(sys, steps, before)
    requires At(before, side).active && !Tick(At(before, side), ms).active
    requires Tick(At(before, side), ms).sender.retx <= MAX_RETX_ATTEMPTS
    requires !At(before, side).linger
    ensures var y := At(before, Other(side)).sender; y.finSent && y.ackno == y.next && y.outstanding == map[]
  {
    hide Initial, Tick, Flow, ConnInv, NoNeedToLinger;
    InitialInv(sys);
    InitialLingers(sys);
    LingerRun(sys, steps, before);
    var x, y := At(before, side), At(before, Other(side));
    var xy, yx := InTransitTo(before, Other(side)), InTransitTo(before, side);
    CloseFinishes(x, y, xy, yx, ms);
  }

  lemma CloseFinishes(x: Connection, y: Connection, xy: set<TCPSegment>, yx: set<TCPSegment>, ms: nat)
    requires ConnInv(x) && ConnInv(y) && Flow(x, y, xy, yx) && Flow(y, x, yx, xy) && NoNeedToLinger(x, y, xy)
    requires x.active && !Tick(x, ms).active && Tick(x, ms).sender.retx <= MAX_RETX_ATTEMPTS
    ensures y.sender.finSent && y.sender.ackno == y.sender.next && y.sender.outstanding == map[]
  {
    hide Flow, Tick, S.CoreInv, Reassembly.Inv;
    CleanClose(x, ms);
    TickEndsSame(x, ms);
    AllAckedIsDelivered(x, y, xy, yx);
    EndIsAll(x, y, yx, xy);
    EndedHasMark(y);
    NothingOutstanding(y.sender);
  }

  lemma TickEndsSame(x: Connection, ms: nat)
    ensures Tick(x, ms).sender.ackno == x.sender.ackno && Tick(x, ms).sender.stream.all == x.sender.stream.all
  {
    hide S.InFlight, StampAll, S.Tick, ResetSegment, FailInbound;
    SenderTickKeepsAckno(x.sender, ms);
    A.TickKeepsStream(x.sender, ms);
  }

  lemma EndedHasMark(y: Connection)
    requires ConnInv(y)
    ensures y.receiver.reasm.out.ended ==> y.receiver.reasm.eof.Some?
  {
  }

  lemma NothingOutstanding(s: S.Sender)
    requires S.SenderInv(s)
    ensures s.ackno == s.next ==> s.outstanding == map[]
  {
  }
}
