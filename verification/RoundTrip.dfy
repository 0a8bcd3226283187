/** A lost segment is made good and acknowledged: one round from timer to timer (tcp_sender.cc, tcp_connection.cc). */
module RoundTrips {
  import opened Words
  import opened WrappingIntegers
  import opened TCPSegments
  import opened Connecting
  import opened EndToEnd
  import R = Receiving
  import S = Sending
  import Reassembly

  /** What an acknowledgment of `v` does to an active endpoint that has sent that far. */
  lemma AckMovesTo(x: Connection, ack: TCPSegment, v: nat)
    requires ConnInv(x) && x.active && ack.header.ack && !ack.header.rst
    requires ack.header.ackno == Wrap(v, x.sender.isn) && x.sender.ackno <= v <= x.sender.next < TWO32 / 2
    ensures SegmentReceived(x, ack).sender.ackno == v
  {
    hide S.SenderInv, S.AckReceived, Answer, R.Receive, R.ReceiverInv, MaximallyFilled, NeedsAnswer, S.Extends,
         S.NextSegment;
    KnownSender(x);
    UnwrapWrap(v, x.sender.isn, x.sender.ackno);
    S.AckInv(x.sender, ack.header.ackno, ack.header.win);
    AnswerInv(S.AckReceived(x.sender, ack.header.ackno, ack.header.win));
  }

  /** A tick moves no number, and keeps an endpoint active that has something outstanding and does not give up. */
  lemma TickKeepsNumbers(x: Connection, ms: nat)
    requires ConnInv(x) && Resends(x, ms)
    ensures var t := Tick(x, ms);
      t.active && t.sender.ackno == x.sender.ackno && t.sender.next == x.sender.next && t.sender.isn == x.sender.isn
  {
    hide S.SenderInv, R.ReceiverInv, MaximallyFilled, S.InFlight, StampAll;
    KnownSender(x);
    S.BytesInFlight(x.sender);
    SomethingInFlight(x.sender);
    TickTracks(x.sender, ms);
  }

  lemma TickTracks(s: S.Sender, ms: nat)
    ensures S.Tick(s, ms).outstanding == s.outstanding && S.Tick(s, ms).next == s.next
    ensures S.Tick(s, ms).ackno == s.ackno && S.Tick(s, ms).isn == s.isn
  {
  }

  lemma SomethingInFlight(s: S.Sender)
    requires S.SenderInv(s) && s.outstanding != map[]
    ensures s.ackno != s.next
  {
  }

  /** What the peer still has to say after the resent segment has reached it. */
  lemma PeerAnswers(x: Connection, y: Connection, xy: set<TCPSegment>, yx: set<TCPSegment>, seg: TCPSegment)
    requires ConnInv(x) && ConnInv(y) && Flow(x, y, xy, yx) && y.active
    requires S.Carried(seg, x.sender) && !seg.header.rst && Length(seg) > 0
    ensures var y' := Apply(y, Deliver(seg));
      && Wanted(y) <= Wanted(y') <= x.sender.next < TWO32 / 2 && |y'.queue| > |y.queue|
      && (Wanted(y') > 0 ==>
            (var answer := y'.queue[|y'.queue| - 1];
             answer.header.ack && !answer.header.rst && answer.header.ackno == Wrap(Wanted(y'), x.sender.isn)))
  {
    hide S.SenderInv, Flow;
    var sent := xy + {seg};
    MoreInTransit(x, y, xy, yx, seg);
    var e := Deliver(seg);
    var y' := Apply(y, e);
    ApplyInv(y, e);
    ApplyQueue(y, e);
    ReceiverApplies(x, y, sent, yx, e);
    ReceiverMoves(x, y, sent, yx, y');
    WantedIsSent(x, y', sent, yx);
    EveryDataSegmentIsAnswered(y, seg);
    KnowsIsn(x, y', sent, yx);
  }

  lemma MoreInTransit(x: Connection, y: Connection, xy: set<TCPSegment>, yx: set<TCPSegment>, seg: TCPSegment)
    requires Flow(x, y, xy, yx) && S.Carried(seg, x.sender)
    ensures Flow(x, y, xy + {seg}, yx)
  {
    hide S.Carried;
  }

  lemma KnowsIsn(x: Connection, y: Connection, xy: set<TCPSegment>, yx: set<TCPSegment>)
    requires Flow(x, y, xy, yx)
    ensures Wanted(y) > 0 ==> R.AckNo(y.receiver) == Some(Wrap(Wanted(y), x.sender.isn))
  {
  }

  ghost predicate WindowFull(y: Connection) { y.receiver.reasm.next == Reassembly.Edge(y.receiver.reasm) }

  /**
   The segment the tick queues reaches `y`, and the last segment `y` queues in answer comes back: then the acknowledged
   number of `x` is past the segment that was oldest, unless that filled the window of `y`.
   */
  ghost predicate Acknowledged(x: Connection, y: Connection, ms: nat) {
    var x1, k := Tick(x, ms), S.Oldest(x.sender);
    && |x1.queue| == |x.queue| + 1 && k in x.sender.outstanding
    && var y1 := Apply(y, Deliver(x1.queue[|x.queue|]));
       && |y1.queue| > |y.queue|
       && (WindowFull(y1) ||
           k + Length(x.sender.outstanding[k]) <= Apply(x1, Deliver(y1.queue[|y1.queue| - 1])).sender.ackno)
  }

  lemma ResendIsAcknowledged(x: Connection, y: Connection, xy: set<TCPSegment>, yx: set<TCPSegment>, ms: nat)
    requires ConnInv(x) && ConnInv(y) && Flow(x, y, xy, yx) && Resends(x, ms) && Listens(y)
    ensures Acknowledged(x, y, ms)
  {
    hide Flow, ConnInv, Tick, SegmentReceived, S.Oldest, S.Carries, Wanted, Stamp, WindowFull, Resends;
    ResendHeals(x, y, xy, yx, ms);
    var x1, k := Tick(x, ms), S.Oldest(x.sender);
    var seg := x1.queue[|x.queue|];
    ResentSegment(x, ms);
    PeerAnswers(x, y, xy, yx, seg);
    var y1 := Apply(y, Deliver(seg));
    SameFull(y1);
    TickKeepsNumbers(x, ms);
    ApplyInv(x, TickEvent(ms));
    AckedIsWanted(x, y, xy, yx);
    if !WindowFull(y1) {
      AckMovesTo(x1, y1.queue[|y1.queue| - 1], Wanted(y1));
    }
  }

  lemma SameFull(y: Connection)
    ensures WindowFull(y) <==> y.receiver.reasm.next == Reassembly.Edge(y.receiver.reasm)
  {
  }

  lemma AckedIsWanted(x: Connection, y: Connection, xy: set<TCPSegment>, yx: set<TCPSegment>)
    requires Flow(x, y, xy, yx)
    ensures x.sender.ackno <= Wanted(y)
  {
  }

  lemma ResentSegment(x: Connection, ms: nat)
    requires ConnInv(x) && Resends(x, ms)
    ensures S.Oldest(x.sender) in x.sender.outstanding && Length(x.sender.outstanding[S.Oldest(x.sender)]) > 0
    ensures Tick(x, ms).queue == x.queue + [Stamp(x.receiver, x.sender.outstanding[S.Oldest(x.sender)])]
    ensures var seg := Tick(x, ms).queue[|x.queue|]; S.Carried(seg, x.sender) && !seg.header.rst && Length(seg) > 0
  {
    hide Tick, S.Oldest, Stamp, S.Carries;
    TickResendsOldest(x, ms);
    var k := S.Oldest(x.sender);
    PlainAndLong(x, k);
    OutstandingCarries(x, k);
    StampedCarries(x.sender, x.receiver, x.sender.outstanding[k], k);
  }

  lemma OutstandingCarries(x: Connection, k: nat)
    requires ConnInv(x) && k in x.sender.outstanding
    ensures S.Carries(x.sender.outstanding[k], k, x.sender)
  {
  }

  /** One round makes good any loss, over every run and at either side. */
  lemma RoundsAcknowledge(sys: System, steps: seq<Step>, end: System, side: Side, ms: nat)
    requires Initial(sys) && Reaches(sys, steps, end)
    requires Resends(At(end, side), ms) && Listens(At(end, Other(side)))
    ensures Acknowledged(At(end, side), At(end, Other(side)), ms)
  {
    hide Initial, Resends, Listens, Acknowledged, Flow;
    InitialInv(sys);
    ReachableInv(sys, steps, end);
    ResendIsAcknowledged(At(end, side), At(end, Other(side)), InTransitTo(end, Other(side)), InTransitTo(end, side),
      ms);
  }
}
