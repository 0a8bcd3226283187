/**
 * Nothing gets stuck: from every reachable state the network, one clock and one reader can deliver all that was written
 * (tcp_sender.cc, tcp_receiver.cc, tcp_connection.cc).
 */
module Deliveries {
  import opened Words
  import opened TCPConfig
  import opened ByteStreams
  import opened TCPSegments
  import opened WrappingIntegers
  import opened Connecting
  import opened EndToEnd
  import A = Applications
  import T = RoundTrips
  import R = Receiving
  import S = Sending
  import Reassembly

  // ---------------------------------------------------------------- continuations

  /** The network moves and delivers segments, time passes at `side`, and the owner of its peer reads: no other call. */
  predicate Prompted(side: Side, step: Step) {
    match step
    case Transmit(_) => true
    case Call(at, e) => e.Deliver? || (at == side && e.TickEvent?) || (at != side && e.ReadEvent?)
  }

  ghost predicate Continues(side: Side, a: System, steps: seq<Step>, b: System) {
    (forall step :: step in steps ==> Prompted(side, step)) && Reaches(a, steps, b)
  }

  ghost predicate Leads(side: Side, a: System, b: System) {
    exists steps :: Continues(side, a, steps, b)
  }

  lemma {:induction false} ReachesThen(a: System, s: seq<Step>, b: System, t: seq<Step>, c: System)
    requires Reaches(a, s, b) && Reaches(b, t, c)
    ensures Reaches(a, s + t, c)
    decreases |s|
  {
    if s == [] {
      assert s + t == t;
    } else {
      ReachesThen(Next(a, s[0]), s[1..], b, t, c);
      assert (s + t)[1..] == s[1..] + t;
    }
  }

  lemma LeadsThen(side: Side, a: System, b: System, c: System)
    requires Leads(side, a, b) && Leads(side, b, c)
    ensures Leads(side, a, c)
  {
    hide Reaches;
    var s :| Continues(side, a, s, b);
    var t :| Continues(side, b, t, c);
    ReachesThen(a, s, b, t, c);
    assert Continues(side, a, s + t, c);
  }

  lemma LeadsNowhere(side: Side, a: System)
    ensures Leads(side, a, a)
  {
    assert Continues(side, a, [], a);
  }

  lemma StepLeads(side: Side, a: System, step: Step)
    requires SystemInv(a) && Prompted(side, step) && Enabled(a, step)
    ensures Leads(side, a, Next(a, step)) && SystemInv(Next(a, step))
  {
    hide SystemInv, Enabled, Next;
    StepInv(a, step);
    assert Reaches(Next(a, step), [], Next(a, step));
    assert [step][1..] == [];
    assert Continues(side, a, [step], Next(a, step));
  }

  // ---------------------------------------------------------------- one step, at either side

  function Put(sys: System, side: Side, c: Connection): System {
    if side == Left then sys.(left := c) else sys.(right := c)
  }

  function Wire(sys: System, side: Side, seg: TCPSegment): System {
    if side == Left then sys.(toLeft := sys.toLeft + {seg}) else sys.(toRight := sys.toRight + {seg})
  }

  lemma Sides(sys: System, side: Side)
    requires SystemInv(sys)
    ensures var x, y := At(sys, side), At(sys, Other(side));
      ConnInv(x) && ConnInv(y) && Flow(x, y, InTransitTo(sys, Other(side)), InTransitTo(sys, side)) && Bounded(x)
  {
    hide ConnInv;
  }

  /** None of the calls of a continuation writes or closes. */
  lemma WritesNothing(c: Connection, e: Event)
    requires ConnInv(c) && (e.Deliver? || e.TickEvent? || e.ReadEvent?)
    ensures SameText(c.sender.stream, Apply(c, e).sender.stream)
  {
    hide ConnInv, Apply, A.BreaksOff;
    A.WritesExactly(c, e);
  }

  predicate SameText(s: Stream, s': Stream) { s'.all == s.all && s'.ended == s.ended }

  lemma CallLeads(side: Side, a: System, at: Side, e: Event) returns (b: System)
    requires SystemInv(a) && Prompted(side, Call(at, e)) && (e.Deliver? ==> e.seg in InTransitTo(a, at))
    ensures Leads(side, a, b) && SystemInv(b) && b == Put(a, at, Apply(At(a, at), e))
  {
    hide SystemInv, ConnInv, Flow, Apply;
    Sides(a, at);
    WritesNothing(At(a, at), e);
    StepLeads(side, a, Call(at, e));
    b := Next(a, Call(at, e));
  }

  lemma TransmitLeads(side: Side, a: System, at: Side) returns (b: System)
    requires SystemInv(a) && At(a, at).queue != []
    ensures Leads(side, a, b) && SystemInv(b)
    ensures var c := At(a, at); b == Wire(Put(a, at, c.(queue := c.queue[1..])), Other(at), c.queue[0])
  {
    hide SystemInv;
    StepLeads(side, a, Transmit(at));
    b := Next(a, Transmit(at));
  }

  /** Everything queued at one side is put on the wire. */
  ghost predicate Flushed(a: System, at: Side, b: System) {
    && At(b, at) == At(a, at).(queue := []) && At(b, Other(at)) == At(a, Other(at))
    && InTransitTo(b, at) == InTransitTo(a, at) && InTransitTo(a, Other(at)) <= InTransitTo(b, Other(at))
    && forall seg :: seg in At(a, at).queue ==> seg in InTransitTo(b, Other(at))
  }

  lemma {:induction false} Flush(side: Side, a: System, at: Side) returns (b: System)
    requires SystemInv(a)
    ensures Leads(side, a, b) && SystemInv(b) && Flushed(a, at, b)
    decreases |At(a, at).queue|
  {
    hide SystemInv, Leads;
    if At(a, at).queue == [] {
      LeadsNowhere(side, a);
      b := a;
    } else {
      var c := TransmitLeads(side, a, at);
      b := Flush(side, c, at);
      LeadsThen(side, a, c, b);
      var queue := At(a, at).queue;
      assert queue == [queue[0]] + queue[1..];
    }
  }

  // ---------------------------------------------------------------- the peer hears a segment

  /** An endpoint that takes what is sent to it, and has room for something. */
  predicate Open(y: Connection) { Listens(y) && y.receiver.reasm.out.capacity > 0 }

  function ReadEverything(y: Connection): Event { ReadEvent(BufferSize(y.receiver.reasm.out)) }

  /** Once its owner has read everything there is room again; nothing else has changed. */
  lemma ReadMakesRoom(y: Connection)
    requires ConnInv(y) && Open(y)
    ensures var y' := Apply(y, ReadEverything(y));
      && Open(y') && Wanted(y') == Wanted(y) && y'.queue == y.queue && y'.sender == y.sender
      && y'.receiver.isn == y.receiver.isn && y'.receiver.reasm.out.read == |y'.receiver.reasm.out.all|
      && y'.receiver.reasm.out.all == y.receiver.reasm.out.all
      && y'.receiver.reasm.out.ended == y.receiver.reasm.out.ended
      && y'.receiver.reasm.next < Reassembly.Edge(y'.receiver.reasm)
  {
    hide S.SenderInv, MaximallyFilled;
  }

  /** A segment delivered to an open endpoint leaves it open, and does not move the edge of its window. */
  lemma StaysOpen(y: Connection, seg: TCPSegment)
    requires ConnInv(y) && Open(y) && !seg.header.rst
    ensures var y' := Apply(y, Deliver(seg));
      && Open(y') && Reassembly.Edge(y'.receiver.reasm) == Reassembly.Edge(y.receiver.reasm)
      && (y.receiver.isn.None? && seg.header.syn ==> Wanted(y') > 0)
      && (y.receiver.isn.Some? && y'.receiver.reasm.next > y.receiver.reasm.next ==> Wanted(y') > Wanted(y))
  {
    hide S.SenderInv, MaximallyFilled, S.AckReceived, Answer, Reassembly.Push, NeedsAnswer, StampAll;
    R.ReceiveInv(y.receiver, seg);
    var rcv := y.receiver;
    var isn := if rcv.isn.None? then seg.header.seqno else rcv.isn.value;
    var index := R.StreamIndex(R.AbsoluteSeqno(rcv, isn, seg), seg.header.syn);
    Reassembly.PushKeepsMarks(rcv.reasm, seg.payload, index, seg.header.fin);
  }

  /** The oldest segment of `x`, as it travels to `y`. */
  ghost predicate Travels(x: Connection, y: Connection, xy: set<TCPSegment>, seg: TCPSegment, k: nat) {
    && seg in xy && S.Carries(seg, k, x.sender) && !seg.header.rst && Length(seg) > 0
    && (k == 0 ==> seg.header.syn) && k <= Wanted(y)
  }

  /** `y` has queued an acknowledgment of all it wants now, which is `n` or more. */
  ghost predicate Answered(x: Connection, y: Connection, n: nat) {
    && n <= Wanted(y) && y.queue != []
    && var answer := y.queue[|y.queue| - 1];
       answer.header.ack && !answer.header.rst && answer.header.ackno == Wrap(Wanted(y), x.sender.isn)
  }

  /** One delivery to a peer that has read everything moves it on, if only by as much as its window holds. */
  lemma DeliveryAdvances(x: Connection, y: Connection, xy: set<TCPSegment>, yx: set<TCPSegment>, seg: TCPSegment,
      k: nat)
    requires ConnInv(x) && ConnInv(y) && Flow(x, y, xy, yx) && Open(y) && Travels(x, y, xy, seg, k)
    requires y.receiver.reasm.next < Reassembly.Edge(y.receiver.reasm)
    ensures var y' := Apply(y, Deliver(seg));
      && Open(y') && Wanted(y) <= Wanted(y')
      && (k + Length(seg) <= Wanted(y') || Wanted(y) < Wanted(y'))
      && Answered(x, y', Wanted(y'))
  {
    hide ConnInv, Flow, S.Carries, SegmentReceived, Wanted;
    StaysOpen(y, seg);
    NothingKnownWantsZero(x, y, xy, yx);
    RetransmissionAdvances(x, y, xy, yx, seg, k);
    CarriesIsCarried(seg, k, x.sender);
    T.PeerAnswers(x, y, xy, yx, seg);
  }

  lemma CarriesIsCarried(seg: TCPSegment, k: nat, s: S.Sender)
    requires S.Carries(seg, k, s)
    ensures S.Carried(seg, s)
  {
  }

  /** However little the window holds, reading and delivering in turn brings the whole segment in. */
  lemma {:induction false} Hears(side: Side, a: System, seg: TCPSegment, k: nat) returns (b: System)
    requires SystemInv(a) && Open(At(a, Other(side)))
    requires Travels(At(a, side), At(a, Other(side)), InTransitTo(a, Other(side)), seg, k)
    ensures Leads(side, a, b) && SystemInv(b) && b == Put(a, Other(side), At(b, Other(side)))
    ensures Open(At(b, Other(side))) && Answered(At(b, side), At(b, Other(side)), k + Length(seg))
    decreases k + Length(seg) - Wanted(At(a, Other(side)))
  {
    hide SystemInv, Leads, S.Carries, ConnInv, Flow, Apply, Wanted, Open;
    var x, y := At(a, side), At(a, Other(side));
    Sides(a, side);
    Sides(a, Other(side));
    ReadMakesRoom(y);
    var c := CallLeads(side, a, Other(side), ReadEverything(y));
    Sides(c, side);
    Sides(c, Other(side));
    DeliveryAdvances(x, At(c, Other(side)), InTransitTo(c, Other(side)), InTransitTo(c, side), seg, k);
    b := CallLeads(side, c, Other(side), Deliver(seg));
    LeadsThen(side, a, c, b);
    if Wanted(At(b, Other(side))) < k + Length(seg) {
      var d := b;
      b := Hears(side, d, seg, k);
      LeadsThen(side, a, d, b);
    }
  }

  // ---------------------------------------------------------------- a round

  /** An active endpoint that has begun, is short of its limit, and whose peer is open. */
  ghost predicate Going(sys: System, side: Side) {
    var x := At(sys, side);
    && SystemInv(sys) && x.active && x.sender.synSent && x.sender.retx < MAX_RETX_ATTEMPTS
    && Open(At(sys, Other(side)))
  }

  /** The time to the next expiry. */
  function UntilExpiry(s: S.Sender): nat { (s.rto - s.timer) % TWO32 }

  lemma ExpiryIsDue(s: S.Sender)
    requires S.SenderInv(s) && s.outstanding != map[]
    ensures S.Expires(s, UntilExpiry(s))
  {
    Sum(s.rto, s.timer);
  }

  lemma Sum(rto: U32, timer: U32)
    ensures (timer + (rto - timer) % TWO32) % TWO32 == rto
  {
  }

  lemma ExpiresThen(x: Connection)
    requires ConnInv(x) && x.active && x.sender.outstanding != map[] && x.sender.retx < MAX_RETX_ATTEMPTS
    ensures Resends(x, UntilExpiry(x.sender))
    ensures var t := Tick(x, UntilExpiry(x.sender)).sender;
      t.outstanding == x.sender.outstanding && t.synSent == x.sender.synSent
  {
    hide R.ReceiverInv, MaximallyFilled, S.SenderInv, S.InFlight, StampAll, S.Expires, UntilExpiry;
    KnownSender(x);
    ExpiryIsDue(x.sender);
  }

  lemma AckClears(s: S.Sender, v: U64, window: U16, k: nat)
    requires S.SenderInv(s) && v <= s.next && k in s.outstanding && k + Length(s.outstanding[k]) <= v
    ensures S.FillWindow(S.Acked(s, v, window)).retx == 0
  {
    hide S.SenderInv, S.CoreInv, S.Extends, S.NextSegment, S.FillWindow;
    S.AckedInv(s, v, window);
    S.FillInv(S.Acked(s, v, window));
    assert k !in S.Unacked(s.outstanding, v);
  }

  /** The acknowledgment of the oldest segment: the count of retransmissions starts over. */
  lemma AckStartsOver(x: Connection, ack: TCPSegment, v: nat, k: nat)
    requires ConnInv(x) && x.active && ack.header.ack && !ack.header.rst && k in x.sender.outstanding
    requires ack.header.ackno == Wrap(v, x.sender.isn) && x.sender.ackno <= v <= x.sender.next < TWO32 / 2
    requires k + Length(x.sender.outstanding[k]) <= v
    ensures var x' := SegmentReceived(x, ack); x'.active && x'.sender.retx == 0
  {
    hide S.SenderInv, S.FillWindow, S.Acked, Answer, R.Receive, R.ReceiverInv, MaximallyFilled, NeedsAnswer;
    hide S.Extends, S.NextSegment, StampAll;
    KnownSender(x);
    UnwrapWrap(v, x.sender.isn, x.sender.ackno);
    AckClears(x.sender, v, ack.header.win, k);
    S.AckInv(x.sender, ack.header.ackno, ack.header.win);
    AnswerInv(S.AckReceived(x.sender, ack.header.ackno, ack.header.win));
  }

  lemma StaysBegun(x: Connection, e: Event)
    requires ConnInv(x) && x.sender.synSent
    ensures Apply(x, e).sender.synSent
  {
    hide ConnInv, Apply;
    ApplyInv(x, e);
    KeepsNumbering(x.sender, Apply(x, e).sender);
  }

  /** What the tick leaves: the oldest segment, stamped, at the end of the queue, and otherwise the same numbers. */
  ghost predicate Ticked(x: Connection, t: Connection, k: nat) {
    && t.active && t.sender.synSent && SameText(x.sender.stream, t.sender.stream)
    && t.sender.ackno == x.sender.ackno && t.sender.isn == x.sender.isn && t.queue != []
    && k in t.sender.outstanding
    && var seg := t.queue[|t.queue| - 1];
       && S.Carries(seg, k, t.sender) && !seg.header.rst && (k == 0 ==> seg.header.syn)
       && 0 < Length(seg) == Length(t.sender.outstanding[k]) && t.sender.ackno < k + Length(seg)
  }

  lemma TickPrepares(x: Connection)
    requires ConnInv(x) && x.active && x.sender.synSent && x.sender.outstanding != map[]
    requires x.sender.retx < MAX_RETX_ATTEMPTS
    ensures Ticked(x, Tick(x, UntilExpiry(x.sender)), S.Oldest(x.sender))
  {
    hide ConnInv, Tick, UntilExpiry, S.Oldest, S.Carries, Stamp, Resends;
    var e := TickEvent(UntilExpiry(x.sender));
    var k, t := S.Oldest(x.sender), Tick(x, e.ms);
    ExpiresThen(x);
    T.ResentSegment(x, e.ms);
    T.TickKeepsNumbers(x, e.ms);
    WritesNothing(x, e);
    PlainAndLong(x, k);
    OldestIsPastAcked(x);
    ApplyInv(x, e);
    T.OutstandingCarries(t, k);
    StampedCarries(t.sender, x.receiver, x.sender.outstanding[k], k);
  }

  lemma OldestIsPastAcked(x: Connection)
    requires ConnInv(x) && S.Oldest(x.sender) in x.sender.outstanding
    ensures x.sender.ackno < S.Oldest(x.sender) + Length(x.sender.outstanding[S.Oldest(x.sender)])
  {
  }

  lemma OldestIsReached(x: Connection, y: Connection, xy: set<TCPSegment>, yx: set<TCPSegment>)
    requires ConnInv(x) && Flow(x, y, xy, yx) && x.sender.outstanding != map[]
    ensures S.Oldest(x.sender) <= Wanted(y)
  {
  }

  /** The tick, and everything queued on the wire: the oldest segment travels. */
  lemma ResendTravels(side: Side, a: System) returns (b: System, seg: TCPSegment, k: nat)
    requires Going(a, side) && At(a, side).sender.outstanding != map[]
    ensures Leads(side, a, b) && SystemInv(b) && At(b, Other(side)) == At(a, Other(side))
    ensures var x, x' := At(a, side), At(b, side);
      && x'.active && x'.sender.ackno == x.sender.ackno && SameText(x.sender.stream, x'.sender.stream)
      && x'.sender.synSent && k in x'.sender.outstanding
      && Length(x'.sender.outstanding[k]) == Length(seg) && x'.sender.ackno < k + Length(seg)
    ensures Travels(At(b, side), At(b, Other(side)), InTransitTo(b, Other(side)), seg, k)
  {
    hide SystemInv, Leads, ConnInv, Flow, Tick, Wanted, Open, UntilExpiry, S.Oldest, S.Carries, SameText;
    var x := At(a, side);
    Sides(a, side);
    TickPrepares(x);
    OldestIsReached(x, At(a, Other(side)), InTransitTo(a, Other(side)), InTransitTo(a, side));
    k := S.Oldest(x.sender);
    var c := CallLeads(side, a, side, TickEvent(UntilExpiry(x.sender)));
    seg := At(c, side).queue[|At(c, side).queue| - 1];
    b := Flush(side, c, side);
    LeadsThen(side, a, c, b);
  }

  /** One round: some continuation acknowledges more than was acknowledged before, and leaves all as it was. */
  lemma Round(side: Side, a: System) returns (b: System)
    requires Going(a, side) && At(a, side).sender.outstanding != map[]
    ensures Leads(side, a, b) && Going(b, side)
    ensures var s, s' := At(a, side).sender, At(b, side).sender;
      SameText(s.stream, s'.stream) && s.ackno < s'.ackno
  {
    hide SystemInv, Leads, ConnInv, Flow, SegmentReceived, Wanted, S.Carries;
    var c, seg, k := ResendTravels(side, a);
    var d := Hears(side, c, seg, k);
    LeadsThen(side, a, c, d);
    var y := At(d, Other(side));
    var answer := y.queue[|y.queue| - 1];
    var e := Flush(side, d, Other(side));
    LeadsThen(side, a, d, e);
    var x := At(e, side);
    Sides(e, side);
    WantedIsSent(x, At(e, Other(side)), InTransitTo(e, Other(side)), InTransitTo(e, side));
    T.AckedIsWanted(x, At(e, Other(side)), InTransitTo(e, Other(side)), InTransitTo(e, side));
    SameWanted(y, At(e, Other(side)), x.sender.isn);
    T.AckMovesTo(x, answer, Wanted(y));
    AckStartsOver(x, answer, Wanted(y), k);
    WritesNothing(x, Deliver(answer));
    StaysBegun(x, Deliver(answer));
    b := CallLeads(side, e, side, Deliver(answer));
    LeadsThen(side, a, e, b);
  }

  // ---------------------------------------------------------------- to the end

  /** Nothing outstanding means that everything written has been sent, and the FIN if it is due. */
  lemma NothingLeft(x: Connection)
    requires ConnInv(x) && x.sender.synSent && x.sender.outstanding == map[]
    ensures x.sender.ackno == x.sender.next == |x.sender.stream.all| + 1 + (if x.sender.stream.ended then 1 else 0)
  {
    hide R.ReceiverInv;
  }

  lemma AckedIsShort(x: Connection)
    requires ConnInv(x)
    ensures x.sender.ackno <= x.sender.next <= |x.sender.stream.all| + 2
  {
  }

  /** What has been acknowledged has been assembled, and the end is known if the stream has ended. */
  lemma AckedIsAssembled(x: Connection, y: Connection, xy: set<TCPSegment>, yx: set<TCPSegment>)
    requires ConnInv(x) && ConnInv(y) && Flow(x, y, xy, yx) && x.sender.synSent && x.sender.outstanding == map[]
    ensures y.receiver.reasm.out.all == x.sender.stream.all
    ensures y.receiver.reasm.out.ended <==> x.sender.stream.ended
  {
    NothingLeft(x);
    WantedIsSent(x, y, xy, yx);
    if x.sender.stream.ended {
      AllAckedIsDelivered(x, y, xy, yx);
    }
    EndIsSent(x);
  }

  lemma EndIsSent(x: Connection)
    requires ConnInv(x)
    ensures x.sender.finSent ==> x.sender.stream.ended
  {
  }

  /** Round after round, until nothing is outstanding. */
  lemma {:induction false} Rounds(side: Side, a: System) returns (b: System)
    requires Going(a, side)
    ensures Leads(side, a, b) && Going(b, side) && At(b, side).sender.outstanding == map[]
    ensures SameText(At(a, side).sender.stream, At(b, side).sender.stream)
    decreases |At(a, side).sender.stream.all| + 2 - At(a, side).sender.ackno
  {
    hide SystemInv, Leads, ConnInv, Flow, Open;
    if At(a, side).sender.outstanding == map[] {
      LeadsNowhere(side, a);
      b := a;
    } else {
      var c := Round(side, a);
      Sides(c, side);
      AckedIsShort(At(c, side));
      b := Rounds(side, c);
      LeadsThen(side, a, c, b);
    }
  }

  /** All that `x` has written is acknowledged to it, and assembled and read at `y`, up to its end if it has one. */
  ghost predicate AllDelivered(written: Stream, x: Connection, y: Connection) {
    var out := y.receiver.reasm.out;
    && SameText(written, x.sender.stream) && x.sender.ackno == x.sender.next && x.sender.outstanding == map[]
    && out.all == written.all && out.read == |out.all| && (out.ended <==> written.ended)
  }

  lemma RestIsDelivered(side: Side, a: System) returns (b: System)
    requires Going(a, side)
    ensures Leads(side, a, b) && AllDelivered(At(a, side).sender.stream, At(b, side), At(b, Other(side)))
  {
    hide SystemInv, Leads, ConnInv, Flow, Open, Apply;
    var c := Rounds(side, a);
    var x, y := At(c, side), At(c, Other(side));
    Sides(c, side);
    Sides(c, Other(side));
    NothingLeft(x);
    AckedIsAssembled(x, y, InTransitTo(c, Other(side)), InTransitTo(c, side));
    ReadMakesRoom(y);
    b := CallLeads(side, c, Other(side), ReadEverything(y));
    LeadsThen(side, a, c, b);
  }

  /**
   Nothing gets stuck, whatever has been lost: from every reachable state in which an endpoint has begun, is active and
   short of its limit on retransmissions, and its peer is open with a capacity of at least one byte, a finite
   continuation in which nobody writes, closes or connects has everything written delivered, read and acknowledged.
   */
  lemma DeliveryIsAlwaysPossible(sys: System, steps: seq<Step>, now: System, side: Side)
    requires Initial(sys) && Reaches(sys, steps, now)
    requires At(now, side).active && At(now, side).sender.synSent && At(now, side).sender.retx < MAX_RETX_ATTEMPTS
    requires Open(At(now, Other(side)))
    ensures exists more, end ::
      && Continues(side, now, more, end)
      && AllDelivered(At(now, side).sender.stream, At(end, side), At(end, Other(side)))
  {
    hide Initial, SystemInv, AllDelivered, Open, Reaches;
    InitialInv(sys);
    ReachableInv(sys, steps, now);
    var end := RestIsDelivered(side, now);
    var more :| Continues(side, now, more, end);
  }
}
