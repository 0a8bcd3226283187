/**
 Two endpoints and a network that may drop, duplicate, delay and reorder: every segment ever put on the wire stays
 deliverable for ever. The invariants hold in every reachable state, in both directions at once.
 */
module EndToEnd {
  import opened Words
  import opened TCPConfig
  import opened WrappingIntegers
  import opened OrderedMaps
  import opened TCPSegments
  import opened Connecting
  import A = Applications
  import Reassembly
  import Leftovers
  import R = Receiving
  import S = Sending
  import TCPStates

  datatype Side = Left | Right

  datatype System = System(left: Connection, right: Connection, toRight: set<TCPSegment>, toLeft: set<TCPSegment>)

  /** An endpoint's owner makes a call, or moves the first queued segment onto the wire. */
  datatype Step = Call(side: Side, event: Event) | Transmit(side: Side)

  function Other(side: Side): Side { if side == Left then Right else Left }

  function At(sys: System, side: Side): Connection { if side == Left then sys.left else sys.right }

  /** What can still be delivered to a side. */
  function InTransitTo(sys: System, side: Side): set<TCPSegment> { if side == Left then sys.toLeft else sys.toRight }

  function Flip(sys: System): System { System(sys.right, sys.left, sys.toLeft, sys.toRight) }

  function FlipStep(step: Step): Step {
    match step
    case Call(side, e) => Call(Other(side), e)
    case Transmit(side) => Transmit(Other(side))
  }

  /** The bound under which 32-bit sequence numbers name one number each: what has ever been written, SYN and FIN. */
  predicate Bounded(c: Connection) { |c.sender.stream.all| + 2 < TWO32 / 2 }

  /** A delivered segment must have been sent; a write must keep the stream below the bound. */
  ghost predicate EnabledLeft(sys: System, step: Step) {
    match step
    case Call(_, e) => (e.Deliver? ==> e.seg in sys.toLeft) && Bounded(Apply(sys.left, e))
    case Transmit(_) => sys.left.queue != []
  }

  ghost function NextLeft(sys: System, step: Step): System
    requires EnabledLeft(sys, step)
  {
    match step
    case Call(_, e) => sys.(left := Apply(sys.left, e))
    case Transmit(_) =>
      sys.(left := sys.left.(queue := sys.left.queue[1..]), toRight := sys.toRight + {sys.left.queue[0]})
  }

  ghost predicate Enabled(sys: System, step: Step) {
    if step.side == Left then EnabledLeft(sys, step) else EnabledLeft(Flip(sys), FlipStep(step))
  }

  ghost function Next(sys: System, step: Step): System
    requires Enabled(sys, step)
  {
    if step.side == Left then NextLeft(sys, step) else Flip(NextLeft(Flip(sys), FlipStep(step)))
  }

  /** Any two endpoints with any capacities, timeouts and initial sequence numbers, and an empty wire. */
  ghost predicate Initial(sys: System) {
    && Fresh(sys.left) && Fresh(sys.right) && sys.toRight == {} && sys.toLeft == {}
  }

  ghost predicate Fresh(c: Connection) {
    exists recvCapacity: nat, sendCapacity: nat, rtTimeout: U16, isn: U32 ::
      c == NewConnection(recvCapacity, sendCapacity, rtTimeout, isn)
  }

  ghost predicate Reaches(sys: System, steps: seq<Step>, end: System)
    decreases |steps|
  {
    if steps == [] then end == sys
    else Enabled(sys, steps[0]) && Reaches(Next(sys, steps[0]), steps[1..], end)
  }

  // ---------------------------------------------------------------- one direction

  /** How far `y` has acknowledged `x`: nothing before `x`'s SYN has arrived. */
  function Wanted(y: Connection): nat {
    if y.receiver.isn.None? then 0 else R.NextWanted(y.receiver)
  }

  ghost predicate Acknowledges(seg: TCPSegment, y: Connection, isn: U32) {
    seg.header.ack ==> exists v :: 1 <= v <= Wanted(y) && seg.header.ackno == Wrap(v, isn)
  }

  /** Data flows from `x` to `y`: on the wire, in the queues and in `y` there is nothing but `x`'s stream. */
  ghost predicate Flow(x: Connection, y: Connection, xy: set<TCPSegment>, yx: set<TCPSegment>) {
    && Bounded(x)
    && (forall seg :: seg in xy || seg in x.queue ==> S.Carried(seg, x.sender))
    && (forall seg :: seg in yx || seg in y.queue ==> Acknowledges(seg, y, x.sender.isn))
    && (y.receiver.isn.Some? ==> y.receiver.isn.value == x.sender.isn && x.sender.synSent)
    && Reassembly.Honest(y.receiver.reasm, S.Sent(x.sender), x.sender.finSent)
    && Leftovers.Parts(y.receiver.reasm, x.sender.log)
    && x.sender.ackno <= Wanted(y)
  }

  ghost predicate SystemInv(sys: System) {
    && ConnInv(sys.left) && ConnInv(sys.right)
    && Flow(sys.left, sys.right, sys.toRight, sys.toLeft)
    && Flow(sys.right, sys.left, sys.toLeft, sys.toRight)
  }

  lemma FlipInv(sys: System)
    ensures SystemInv(sys) <==> SystemInv(Flip(sys))
  {
  }

  /** The receiver never wants more than has been sent. */
  lemma WantedIsSent(x: Connection, y: Connection, xy: set<TCPSegment>, yx: set<TCPSegment>)
    requires ConnInv(x) && ConnInv(y) && Flow(x, y, xy, yx)
    ensures Wanted(y) <= x.sender.next < TWO32 / 2
    ensures y.receiver.reasm.out.all <= x.sender.stream.all
    ensures y.receiver.reasm.out.ended ==> x.sender.finSent && y.receiver.reasm.out.all == x.sender.stream.all
  {
    var got, sent := y.receiver.reasm.out.all, S.Sent(x.sender);
    assert got == sent[..|got|];
    assert sent == x.sender.stream.all[..|sent|];
  }

  // ---------------------------------------------------------------- the data sender moves

  lemma SentIsFinal(s: S.Sender, s': S.Sender)
    requires S.SenderInv(s) && S.SenderInv(s') && S.Extends(s, s')
    ensures s.finSent ==> S.Sent(s') == S.Sent(s)
  {
  }

  lemma HonestExtends(r: Reassembly.Reassembler, s: S.Sender, s': S.Sender)
    requires S.SenderInv(s) && S.SenderInv(s') && S.Extends(s, s')
    requires Reassembly.Honest(r, S.Sent(s), s.finSent)
    ensures Reassembly.Honest(r, S.Sent(s'), s'.finSent)
  {
    SentIsFinal(s, s');
    if !s.finSent {
      Reassembly.HonestGrows(r, S.Sent(s), S.Sent(s'), s'.finSent);
    }
  }

  lemma PartsExtend(r: Reassembly.Reassembler, s: S.Sender, s': S.Sender)
    requires S.Extends(s, s') && Leftovers.Parts(r, s.log)
    ensures Leftovers.Parts(r, s'.log)
  {
    forall k | k in r.frags ensures Leftovers.Within(s'.log, k, |r.frags[k]|) {
      var a :| a in s.log && a <= k + 1 && k + 1 + |r.frags[k]| <= a + s.log[a];
    }
    if r.next in r.frags {
      var a :| a in s.log && a < r.next + 1 < a + s.log[a];
    }
  }

  lemma SenderMoves(x: Connection, y: Connection, xy: set<TCPSegment>, yx: set<TCPSegment>, x': Connection)
    requires ConnInv(x) && Flow(x, y, xy, yx) && ConnInv(x') && Bounded(x')
    requires S.Extends(x.sender, x'.sender) && x'.sender.ackno <= Wanted(y) && QueueGrows(x, x')
    ensures Flow(x', y, xy, yx)
  {
    hide S.CoreInv, S.Extends, R.ReceiverInv, MaximallyFilled, Reassembly.Honest, Leftovers.Parts;
    HonestExtends(y.receiver.reasm, x.sender, x'.sender);
    PartsExtend(y.receiver.reasm, x.sender, x'.sender);
    KeepsNumbering(x.sender, x'.sender);
    forall seg | seg in xy || seg in x'.queue ensures S.Carried(seg, x'.sender) {
      if seg in xy || seg in x.queue {
        S.CarriedExtends(seg, x.sender, x'.sender);
      } else {
        var i :| 0 <= i < |x'.queue| && x'.queue[i] == seg;
        assert i < |x.queue| ==> x.queue[i] == seg;
      }
    }
  }

  lemma KeepsNumbering(s: S.Sender, s': S.Sender)
    requires S.Extends(s, s')
    ensures s'.isn == s.isn && (s.synSent ==> s'.synSent)
  {
  }

  /** An acknowledgment that arrives, however old, names a number the peer really wants or has passed. */
  lemma AckStaysWanted(x: Connection, y: Connection, xy: set<TCPSegment>, yx: set<TCPSegment>, e: Event)
    requires ConnInv(x) && ConnInv(y) && Flow(x, y, xy, yx) && (e.Deliver? ==> e.seg in yx)
    ensures Apply(x, e).sender.ackno <= Wanted(y)
  {
    ApplyAckno(x, e);
    if Apply(x, e).sender.ackno != x.sender.ackno {
      var v :| 1 <= v <= Wanted(y) && e.seg.header.ackno == Wrap(v, x.sender.isn);
      WantedIsSent(x, y, xy, yx);
      UnwrapWrap(v, x.sender.isn, x.sender.ackno);
    }
  }

  // ---------------------------------------------------------------- the data receiver moves

  ghost predicate FromSender(rcv: R.Receiver, s: S.Sender) {
    && (rcv.isn.Some? ==> rcv.isn.value == s.isn && s.synSent)
    && Reassembly.Honest(rcv.reasm, S.Sent(s), s.finSent)
    && Leftovers.Parts(rcv.reasm, s.log)
  }

  lemma GotIsSent(rcv: R.Receiver, s: S.Sender)
    requires FromSender(rcv, s)
    ensures |rcv.reasm.out.all| <= |S.Sent(s)| <= |s.stream.all|
  {
  }

  /** Every unwrap in the receiver is exact. */
  lemma UnwrapIsExact(rcv: R.Receiver, s: S.Sender, seg: TCPSegment, absolute: nat)
    requires R.ReceiverInv(rcv) && S.SenderInv(s) && FromSender(rcv, s) && |s.stream.all| + 2 < TWO32 / 2
    requires S.Carries(seg, absolute, s)
    ensures R.AbsoluteSeqno(rcv, s.isn, seg) == absolute < TWO32 / 2
  {
    hide S.TracksSegments, S.Tiled, Unwrap, Wrap, Reassembly.Inv, Reassembly.Agrees, Reassembly.Honest;
    GotIsSent(rcv, s);
    UnwrapWrap(absolute, s.isn, |rcv.reasm.out.all| + 1);
  }

  /** So a carried segment is pushed at the index its bytes have in the stream. */
  lemma PushedWhereSent(rcv: R.Receiver, s: S.Sender, seg: TCPSegment, absolute: nat)
    requires R.ReceiverInv(rcv) && S.SenderInv(s) && FromSender(rcv, s) && |s.stream.all| + 2 < TWO32 / 2
    requires S.Carries(seg, absolute, s)
    ensures var index := R.StreamIndex(R.AbsoluteSeqno(rcv, s.isn, seg), seg.header.syn);
      && Reassembly.Fits(S.Sent(s), index, seg.payload)
      && (seg.header.fin ==> s.finSent && index + |seg.payload| == |S.Sent(s)|)
      && (seg.payload != [] || seg.header.fin ==> index == absolute - 1)
  {
    hide Unwrap, FromSender, S.Tiled, S.TracksSegments;
    UnwrapIsExact(rcv, s, seg, absolute);
  }

  lemma CarriedIsWithin(seg: TCPSegment, absolute: nat, s: S.Sender)
    requires S.Carries(seg, absolute, s)
    ensures seg.payload != [] ==> absolute > 0 && Leftovers.Within(s.log, absolute - 1, |seg.payload|)
  {
    if seg.payload != [] {
      assert absolute in s.log;
    }
  }

  lemma KnownInv(rcv: R.Receiver)
    requires R.ReceiverInv(rcv)
    ensures Reassembly.Inv(rcv.reasm)
  {
  }

  lemma HonestReceive(rcv: R.Receiver, s: S.Sender, seg: TCPSegment)
    requires R.ReceiverInv(rcv) && S.SenderInv(s) && FromSender(rcv, s) && |s.stream.all| + 2 < TWO32 / 2
    requires S.Carried(seg, s)
    ensures FromSender(R.Receive(rcv, seg), s)
  {
    hide S.CoreInv, Reassembly.Inv, Reassembly.Push, Reassembly.Honest, Leftovers.Parts, Leftovers.Within;
    var absolute :| S.Carries(seg, absolute, s);
    if rcv.isn.Some? || seg.header.syn {
      var isn := if rcv.isn.None? then seg.header.seqno else rcv.isn.value;
      SynNamesIsn(s, seg, absolute);
      PushedWhereSent(rcv, s, seg, absolute);
      var index := R.StreamIndex(R.AbsoluteSeqno(rcv, isn, seg), seg.header.syn);
      Reassembly.HonestPush(rcv.reasm, seg.payload, index, seg.header.fin, S.Sent(s), s.finSent);
      CarriedIsWithin(seg, absolute, s);
      KnownInv(rcv);
      Leftovers.PushParts(rcv.reasm, seg.payload, index, seg.header.fin, s.log);
    }
  }

  lemma SynNamesIsn(s: S.Sender, seg: TCPSegment, absolute: nat)
    requires S.SenderInv(s) && S.Carries(seg, absolute, s)
    ensures seg.header.syn ==> seg.header.seqno == s.isn && s.synSent
  {
  }

  lemma ReceiverMoves(x: Connection, y: Connection, xy: set<TCPSegment>, yx: set<TCPSegment>, y': Connection)
    requires Flow(x, y, xy, yx) && FromSender(y'.receiver, x.sender) && QueueGrows(y, y')
    requires Wanted(y) <= Wanted(y')
    ensures Flow(x, y', xy, yx)
  {
    forall seg | seg in yx || seg in y'.queue ensures Acknowledges(seg, y', x.sender.isn) {
      if seg in yx || seg in y.queue {
        assert Acknowledges(seg, y, x.sender.isn);
      } else {
        var i :| 0 <= i < |y'.queue| && y'.queue[i] == seg;
        assert i < |y.queue| ==> y.queue[i] == seg;
        assert Outgoing(seg, y');
      }
    }
  }

  lemma ReceiverApplies(x: Connection, y: Connection, xy: set<TCPSegment>, yx: set<TCPSegment>, e: Event)
    requires ConnInv(x) && ConnInv(y) && Flow(x, y, xy, yx) && (e.Deliver? ==> e.seg in xy)
    ensures FromSender(Apply(y, e).receiver, x.sender) && Wanted(y) <= Wanted(Apply(y, e))
  {
    ApplyReceiver(y, e);
    var rcv := y.receiver;
    if e.Deliver? {
      HonestReceive(rcv, x.sender, e.seg);
      R.ReceiveInv(rcv, e.seg);
      R.ArriveAdvances(rcv, R.SegmentArrival(e.seg));
    }
    FailedIsHonest(rcv, x.sender);
    if e.ReadEvent? {
      ReadIsHonest(rcv, x.sender, e.len);
    }
  }

  lemma FailedIsHonest(rcv: R.Receiver, s: S.Sender)
    requires FromSender(rcv, s)
    ensures FromSender(FailInbound(rcv), s)
  {
  }

  lemma ReadIsHonest(rcv: R.Receiver, s: S.Sender, len: nat)
    requires FromSender(rcv, s)
    ensures FromSender(R.ReadInbound(rcv, len), s)
  {
  }

  // ---------------------------------------------------------------- every reachable state

  lemma InitialInv(sys: System)
    requires Initial(sys)
    ensures SystemInv(sys)
  {
    FreshInv(sys.left);
    FreshInv(sys.right);
  }

  lemma FreshInv(c: Connection)
    requires Fresh(c)
    ensures ConnInv(c) && Bounded(c) && c.queue == [] && Wanted(c) == 0 && c.sender.ackno == 0
    ensures forall s: seq<Byte>, whole: bool :: Reassembly.Honest(c.receiver.reasm, s, whole)
  {
    var recvCapacity: nat, sendCapacity: nat, rtTimeout: U16, isn: U32 :|
      c == NewConnection(recvCapacity, sendCapacity, rtTimeout, isn);
    NewConnInv(recvCapacity, sendCapacity, rtTimeout, isn);
  }

  lemma CallLeftInv(sys: System, e: Event)
    requires SystemInv(sys) && EnabledLeft(sys, Call(Left, e))
    ensures SystemInv(NextLeft(sys, Call(Left, e)))
  {
    hide ConnInv, Apply, QueueGrows, FromSender, S.Extends;
    var left := Apply(sys.left, e);
    ApplyInv(sys.left, e);
    ApplyQueue(sys.left, e);
    AckStaysWanted(sys.left, sys.right, sys.toRight, sys.toLeft, e);
    SenderMoves(sys.left, sys.right, sys.toRight, sys.toLeft, left);
    ReceiverApplies(sys.right, sys.left, sys.toLeft, sys.toRight, e);
    ReceiverMoves(sys.right, sys.left, sys.toLeft, sys.toRight, left);
  }

  lemma TransmitLeftInv(sys: System)
    requires SystemInv(sys) && sys.left.queue != []
    ensures SystemInv(NextLeft(sys, Transmit(Left)))
  {
    hide S.SenderInv, R.ReceiverInv, MaximallyFilled, S.Carried, Acknowledges, Reassembly.Honest, Leftovers.Parts,
         Wanted;
    var c := sys.left.(queue := sys.left.queue[1..]);
    assert forall seg :: seg in c.queue ==> seg in sys.left.queue;
    assert sys.left.queue[0] in sys.left.queue;
    SameWanted(sys.left, c, sys.right.sender.isn);
  }

  /** The outgoing queue is no part of what an endpoint wants. */
  lemma SameWanted(c: Connection, c': Connection, isn: U32)
    requires c' == c.(queue := c'.queue)
    ensures Wanted(c') == Wanted(c) && forall seg :: Acknowledges(seg, c', isn) <==> Acknowledges(seg, c, isn)
  {
  }

  lemma StepInv(sys: System, step: Step)
    requires SystemInv(sys) && Enabled(sys, step)
    ensures SystemInv(Next(sys, step))
  {
    hide SystemInv;
    FlipInv(sys);
    var (from, move) := if step.side == Left then (sys, step) else (Flip(sys), FlipStep(step));
    assert move.side == Left;
    match move {
      case Call(_, e) => CallLeftInv(from, e);
      case Transmit(_) => TransmitLeftInv(from);
    }
    FlipInv(NextLeft(from, move));
  }

  lemma {:induction false} ReachableInv(sys: System, steps: seq<Step>, end: System)
    requires SystemInv(sys) && Reaches(sys, steps, end)
    ensures SystemInv(end)
    decreases |steps|
  {
    if steps != [] {
      StepInv(sys, steps[0]);
      ReachableInv(Next(sys, steps[0]), steps[1..], end);
    }
  }

  // ---------------------------------------------------------------- what the applications do

  function StepWrites(sys: System, step: Step, side: Side): seq<Byte> {
    if step.Call? && step.side == side then A.WrittenBy(At(sys, side), step.event) else []
  }

  function StepReads(sys: System, step: Step, side: Side): seq<Byte> {
    if step.Call? && step.side == side then A.ReadBy(At(sys, side), step.event) else []
  }

  /** All that the application at `side` has written in a run, as far as `write` took it. */
  ghost function Written(sys: System, steps: seq<Step>, side: Side): seq<Byte>
    decreases |steps|
  {
    if steps == [] || !Enabled(sys, steps[0]) then []
    else StepWrites(sys, steps[0], side) + Written(Next(sys, steps[0]), steps[1..], side)
  }

  /** All that the application at `side` has read in a run. */
  ghost function ReadOut(sys: System, steps: seq<Step>, side: Side): seq<Byte>
    decreases |steps|
  {
    if steps == [] || !Enabled(sys, steps[0]) then []
    else StepReads(sys, steps[0], side) + ReadOut(Next(sys, steps[0]), steps[1..], side)
  }

  /** The application at `side` has ended its stream. */
  predicate Closed(steps: seq<Step>, side: Side) { Call(side, EndEvent) in steps }

  lemma StepOf(sys: System, step: Step, side: Side)
    requires Enabled(sys, step)
    ensures var c, c' := At(sys, side), At(Next(sys, step), side);
      if step.side != side then c' == c
      else if step.Transmit? then c.queue != [] && c' == c.(queue := c.queue[1..])
      else c' == Apply(c, step.event)
  {
    hide Apply;
  }

  lemma KnownConnection(sys: System, side: Side)
    requires SystemInv(sys)
    ensures ConnInv(At(sys, side))
  {
  }

  lemma StepOwns(sys: System, step: Step, side: Side)
    requires SystemInv(sys) && Enabled(sys, step)
    ensures var c, c' := At(sys, side), At(Next(sys, step), side);
      var out', out := c'.receiver.reasm.out, c.receiver.reasm.out;
      && c'.sender.stream.all == c.sender.stream.all + StepWrites(sys, step, side)
      && c'.sender.stream.ended == (c.sender.stream.ended || step == Call(side, EndEvent))
      && out'.all[..out'.read] == out.all[..out.read] + StepReads(sys, step, side)
  {
    hide Apply, SystemInv, Enabled, Next, ConnInv, A.WrittenBy, A.ReadBy, A.BreaksOff;
    StepOf(sys, step, side);
    KnownConnection(sys, side);
    if step.Call? && step.side == side {
      A.WritesExactly(At(sys, side), step.event);
      A.ReadsExactly(At(sys, side), step.event);
    }
  }

  /** Over a run, a stream grows by what is written, ends when it is ended, and yields what is read. */
  lemma {:induction false} RunOwns(sys: System, steps: seq<Step>, end: System, side: Side)
    requires SystemInv(sys) && Reaches(sys, steps, end)
    ensures var c, c' := At(sys, side), At(end, side);
      var out', out := c'.receiver.reasm.out, c.receiver.reasm.out;
      && c'.sender.stream.all == c.sender.stream.all + Written(sys, steps, side)
      && c'.sender.stream.ended == (c.sender.stream.ended || Closed(steps, side))
      && out'.all[..out'.read] == out.all[..out.read] + ReadOut(sys, steps, side)
    decreases |steps|
  {
    hide SystemInv, Enabled, Next, StepWrites, StepReads;
    if steps != [] {
      StepInv(sys, steps[0]);
      StepOwns(sys, steps[0], side);
      RunOwns(Next(sys, steps[0]), steps[1..], end, side);
      assert steps == [steps[0]] + steps[1..];
    }
  }

  // ---------------------------------------------------------------- main results

  /**
   * What a direction has delivered: a prefix of what was written, and all of it once the receiver says it has ended.
   */
  ghost predicate DeliveredInOrder(x: Connection, y: Connection) {
    var written, assembled := x.sender.stream.all, y.receiver.reasm.out.all;
    && assembled <= written
    && (y.receiver.reasm.out.ended ==> x.sender.stream.ended && assembled == written)
  }

  /**
   * What came in at one side against what was written at the other: `assembled` and `read` are prefixes of it, and all
   * of it has been assembled once the receiver says it has ended, which it does only if the writer has ended it.
   */
  ghost predicate ComesOut(written: seq<Byte>, closed: bool, assembled: seq<Byte>, read: seq<Byte>, ended: bool) {
    && read <= assembled <= written
    && (ended ==> closed && assembled == written)
  }

  /**
   * Safety: in every reachable state, in both directions, what is assembled, and what has been read of it, is a prefix
   * of what the application at the other side has written.
   */
  lemma Safety(sys: System, steps: seq<Step>, end: System)
    requires Initial(sys) && Reaches(sys, steps, end)
    ensures DeliveredInOrder(end.left, end.right) && DeliveredInOrder(end.right, end.left)
    ensures forall side :: Sound(sys, steps, end, side)
  {
    hide SystemInv, Initial, DeliveredInOrder, Sound, Reaches;
    InitialInv(sys);
    ReachableInv(sys, steps, end);
    NothingYet(sys);
    RunIsSafe(sys, steps, end, Left);
    RunIsSafe(sys, steps, end, Right);
    forall side ensures Sound(sys, steps, end, side) {
      if side == Left { assert Sound(sys, steps, end, Left); }
    }
  }

  ghost predicate Sound(sys: System, steps: seq<Step>, end: System, side: Side) {
    var out := At(end, Other(side)).receiver.reasm.out;
    ComesOut(Written(sys, steps, side), Closed(steps, side), out.all, ReadOut(sys, steps, Other(side)), out.ended)
  }

  ghost predicate Untouched(sys: System, side: Side) {
    && At(sys, side).sender.stream.all == [] && !At(sys, side).sender.stream.ended
    && At(sys, side).receiver.reasm.out.all == [] && At(sys, side).receiver.reasm.out.read == 0
  }

  lemma RunIsSafe(sys: System, steps: seq<Step>, end: System, side: Side)
    requires SystemInv(sys) && SystemInv(end) && Reaches(sys, steps, end)
    requires Untouched(sys, Left) && Untouched(sys, Right)
    ensures DeliveredInOrder(At(end, side), At(end, Other(side))) && Sound(sys, steps, end, side)
  {
    hide SystemInv, Flow, Reaches, ConnInv, Written, ReadOut, Closed;
    OneDirection(end, side);
    WantedIsSent(At(end, side), At(end, Other(side)), InTransitTo(end, Other(side)), InTransitTo(end, side));
    SentFinIsEnd(At(end, side));
    RunOwns(sys, steps, end, side);
    RunOwns(sys, steps, end, Other(side));
  }

  lemma OneDirection(sys: System, side: Side)
    requires SystemInv(sys)
    ensures ConnInv(At(sys, side)) && ConnInv(At(sys, Other(side)))
    ensures Flow(At(sys, side), At(sys, Other(side)), InTransitTo(sys, Other(side)), InTransitTo(sys, side))
  {
    hide ConnInv, Flow;
  }

  lemma NothingYet(sys: System)
    requires Initial(sys)
    ensures Untouched(sys, Left) && Untouched(sys, Right)
  {
  }

  lemma SentFinIsEnd(c: Connection)
    requires ConnInv(c)
    ensures c.sender.finSent ==> c.sender.stream.ended
  {
  }

  ghost predicate UnwrapsTo(y: Connection, x: Connection, seg: TCPSegment, absolute: nat) {
    S.Carries(seg, absolute, x.sender) && R.AbsoluteSeqno(y.receiver, x.sender.isn, seg) == absolute
  }

  /**
   In every reachable state, whatever segment may be delivered, however old, unwraps at its receiver to the number the
   sender gave it.
   */
  lemma EveryUnwrapIsExact(sys: System, steps: seq<Step>, end: System, side: Side)
    requires Initial(sys) && Reaches(sys, steps, end)
    ensures forall seg :: seg in InTransitTo(end, side) ==>
              exists absolute :: UnwrapsTo(At(end, side), At(end, Other(side)), seg, absolute)
  {
    hide Initial;
    InitialInv(sys);
    ReachableInv(sys, steps, end);
    var x, y := At(end, Other(side)), At(end, side);
    forall seg | seg in InTransitTo(end, side) ensures exists absolute :: UnwrapsTo(y, x, seg, absolute) {
      TransitUnwraps(x, y, InTransitTo(end, side), InTransitTo(end, Other(side)), seg);
    }
  }

  lemma TransitUnwraps(x: Connection, y: Connection, xy: set<TCPSegment>, yx: set<TCPSegment>, seg: TCPSegment)
    requires ConnInv(x) && ConnInv(y) && Flow(x, y, xy, yx) && seg in xy
    ensures exists absolute :: UnwrapsTo(y, x, seg, absolute)
  {
    var absolute :| S.Carries(seg, absolute, x.sender);
    UnwrapIsExact(y.receiver, x.sender, seg, absolute);
    assert UnwrapsTo(y, x, seg, absolute);
  }

  /** Every written byte is assembled by the peer, held in an outstanding segment, or still in the send buffer. */
  ghost predicate Accounted(x: Connection, y: Connection, i: nat) {
    || i < |y.receiver.reasm.out.all|
    || i >= x.sender.stream.read
    || exists k :: k in x.sender.outstanding && Holding(x, k, i)
  }

  ghost predicate Holding(x: Connection, k: nat, i: nat)
    requires k in x.sender.outstanding
  {
    var seg := x.sender.outstanding[k];
    k <= i + 1 < k + |seg.payload| && i < |x.sender.stream.all| && seg.payload[i + 1 - k] == x.sender.stream.all[i]
  }

  lemma TileCovers(m: S.Outstanding, una: nat, next: nat, n: nat) returns (k: nat)
    requires S.Tiled(m, una, next) && una <= n < next
    ensures k in m && k <= n < k + Length(m[k])
  {
    assert CeilKey(m, 0).value <= n;
    k := FloorKey(m, n).value;
    var end := k + Length(m[k]);
    assert end in m ==> n < end;
  }

  /** In one direction: acknowledged, wanted and sent are in that order, and no written byte is lost. */
  lemma NoLossOneWay(x: Connection, y: Connection, xy: set<TCPSegment>, yx: set<TCPSegment>, i: nat)
    requires ConnInv(x) && ConnInv(y) && Flow(x, y, xy, yx) && i < |x.sender.stream.all|
    ensures x.sender.ackno <= Wanted(y) <= x.sender.next
    ensures Accounted(x, y, i)
  {
    WantedIsSent(x, y, xy, yx);
    var s := x.sender;
    if |y.receiver.reasm.out.all| <= i < s.stream.read {
      assert s.ackno <= i + 1 < s.next;
      var k := TileCovers(s.outstanding, s.ackno, s.next, i + 1);
      HoldsByte(x, k, i);
    }
  }

  lemma HoldsByte(x: Connection, k: nat, i: nat)
    requires ConnInv(x) && k in x.sender.outstanding && i < x.sender.stream.read
    requires k <= i + 1 < k + Length(x.sender.outstanding[k])
    ensures Holding(x, k, i)
  {
    var seg := x.sender.outstanding[k];
    assert S.Carries(seg, k, x.sender);
    assert seg.payload != [];
  }

  lemma NoLoss(sys: System, steps: seq<Step>, end: System)
    requires Initial(sys) && Reaches(sys, steps, end)
    ensures end.left.sender.ackno <= Wanted(end.right) <= end.left.sender.next
    ensures end.right.sender.ackno <= Wanted(end.left) <= end.right.sender.next
    ensures forall i: nat :: i < |end.left.sender.stream.all| ==> Accounted(end.left, end.right, i)
    ensures forall i: nat :: i < |end.right.sender.stream.all| ==> Accounted(end.right, end.left, i)
  {
    InitialInv(sys);
    ReachableInv(sys, steps, end);
    WantedIsSent(end.left, end.right, end.toRight, end.toLeft);
    WantedIsSent(end.right, end.left, end.toLeft, end.toRight);
    forall i: nat | i < |end.left.sender.stream.all| ensures Accounted(end.left, end.right, i) {
      NoLossOneWay(end.left, end.right, end.toRight, end.toLeft, i);
    }
    forall i: nat | i < |end.right.sender.stream.all| ensures Accounted(end.right, end.left, i) {
      NoLossOneWay(end.right, end.left, end.toLeft, end.toRight, i);
    }
  }

  /** What the peer's counters prove: once all is acknowledged, all has been assembled and the peer has seen the end. */
  lemma AllAckedIsDelivered(x: Connection, y: Connection, xy: set<TCPSegment>, yx: set<TCPSegment>)
    requires ConnInv(x) && ConnInv(y) && Flow(x, y, xy, yx) && x.sender.ackno == |x.sender.stream.all| + 2
    ensures y.receiver.reasm.out.ended && y.receiver.reasm.out.all == x.sender.stream.all
  {
    WantedIsSent(x, y, xy, yx);
  }

  /** One direction is over: everything written is assembled, and both ends know it. */
  ghost predicate Whole(x: Connection, y: Connection) {
    x.sender.stream.ended && y.receiver.reasm.out.ended && y.receiver.reasm.out.all == x.sender.stream.all
  }

  ghost predicate DeliveredBoth(sys: System) { Whole(sys.left, sys.right) && Whole(sys.right, sys.left) }

  lemma FinishedDelivers(sys: System)
    requires SystemInv(sys) && FinishedCleanly(sys.left)
    ensures DeliveredBoth(sys)
  {
    AllAckedIsDelivered(sys.left, sys.right, sys.toRight, sys.toLeft);
    WantedIsSent(sys.right, sys.left, sys.toLeft, sys.toRight);
  }

  /**
   A clean close by either side means both streams were delivered whole, in both directions; its state is then CLOSED,
   unless its own stream had failed.
   */
  lemma CleanCloseDeliversBoth(sys: System, steps: seq<Step>, before: System, side: Side, ms: nat)
    requires Initial(sys) && Reaches(sys, steps, before)
    requires Enabled(before, Call(side, TickEvent(ms)))
    requires At(before, side).active && !Tick(At(before, side), ms).active
    requires Tick(At(before, side), ms).sender.retx <= MAX_RETX_ATTEMPTS
    ensures DeliveredBoth(Next(before, Call(side, TickEvent(ms))))
    ensures TCPStates.StateOf(Tick(At(before, side), ms)) == TCPStates.Official(TCPStates.CLOSED) <==>
            !At(before, side).sender.stream.error
  {
    hide Flow, Tick, FinishedCleanly, Whole, ConnInv, S.SenderInv, Initial;
    InitialInv(sys);
    ReachableInv(sys, steps, before);
    if side == Left {
      LeftCloses(before, ms);
    } else {
      FlipInv(before);
      LeftCloses(Flip(before), ms);
    }
  }

  lemma LeftCloses(before: System, ms: nat)
    requires SystemInv(before) && Enabled(before, Call(Left, TickEvent(ms)))
    requires before.left.active && !Tick(before.left, ms).active
    requires Tick(before.left, ms).sender.retx <= MAX_RETX_ATTEMPTS
    ensures DeliveredBoth(NextLeft(before, Call(Left, TickEvent(ms))))
    ensures TCPStates.StateOf(Tick(before.left, ms)) == TCPStates.Official(TCPStates.CLOSED) <==>
            !before.left.sender.stream.error
  {
    hide Flow, Tick, FinishedCleanly, DeliveredBoth, ConnInv, S.SenderInv;
    StepInv(before, Call(Left, TickEvent(ms)));
    LeftKept(before);
    CleanClose(before.left, ms);
    FinishedDelivers(Next(before, Call(Left, TickEvent(ms))));
    TCPStates.CleanCloseIsClosed(before.left, ms);
  }

  lemma LeftKept(sys: System)
    requires SystemInv(sys)
    ensures ConnInv(sys.left)
  {
  }

  // ---------------------------------------------------------------- retransmission makes progress

  /** The push that delivers a carried segment fills the stream up to its end, or up to the edge of the window. */
  lemma PushAdvances(r: Reassembly.Reassembler, data: seq<Byte>, index: nat, eof: bool, s: seq<Byte>, whole: bool)
    requires Reassembly.Honest(r, s, whole) && Reassembly.Fits(s, index, data) && !r.out.error && !r.out.ended
    requires (eof ==> whole && index + |data| == |s|) && index <= r.next
    requires index < r.next || r.next !in r.frags
    ensures var r' := Reassembly.Push(r, data, index, eof);
      r'.next == Reassembly.Edge(r') || (index + |data| <= r'.next && (eof ==> r'.out.ended))
  {
    var r' := Reassembly.Push(r, data, index, eof);
    Reassembly.PushInv(r, data, index, eof);
    Reassembly.PushKeepsMarks(r, data, index, eof);
    if Reassembly.Rejects(r, index) {
      StartIsNext(r, index);
    } else {
      Reassembly.PushLeast(r, data, index, eof);
      if r'.next < Reassembly.Edge(r') && r'.next < index + |data| {
        Reassembly.PushHolds(r, data, index, eof, r'.next);
      }
    }
  }

  lemma StartIsNext(r: Reassembly.Reassembler, index: nat)
    requires Reassembly.Ordered(r) && index <= r.next && (index < r.next || r.next !in r.frags)
    ensures Reassembly.NewIndex(r, index) == r.next
  {
    assert forall k :: k in r.frags ==> index < k;
  }

  /** A segment that begins where a leftover begins would have to overlap the segment the leftover comes from. */
  lemma NoSegmentBeginsAtLeftover(r: Reassembly.Reassembler, s: S.Sender, absolute: nat)
    requires S.SenderInv(s) && Leftovers.Parts(r, s.log) && absolute in s.log && r.next in r.frags
    ensures absolute != r.next + 1
  {
    var a :| a in s.log && a < r.next + 1 < a + s.log[a];
  }

  /**
   * A segment that begins no later than what an open peer wants makes it advance past the segment, or its window is
   * full.
   */
  lemma RetransmissionAdvances(x: Connection, y: Connection, xy: set<TCPSegment>, yx: set<TCPSegment>,
      seg: TCPSegment, absolute: nat)
    requires ConnInv(x) && ConnInv(y) && Flow(x, y, xy, yx)
    requires S.Carries(seg, absolute, x.sender) && absolute <= Wanted(y)
    requires y.active && !seg.header.rst && !y.receiver.reasm.out.error && (y.receiver.isn.Some? || seg.header.syn)
    ensures var y' := Apply(y, Deliver(seg));
      absolute + Length(seg) <= Wanted(y') || y'.receiver.reasm.next == Reassembly.Edge(y'.receiver.reasm)
  {
    WantedIsSent(x, y, xy, yx);
    ReceiveAdvances(y.receiver, x.sender, seg, absolute);
  }

  lemma ReceiveAdvances(rcv: R.Receiver, s: S.Sender, seg: TCPSegment, absolute: nat)
    requires R.ReceiverInv(rcv) && S.SenderInv(s) && FromSender(rcv, s) && |s.stream.all| + 2 < TWO32 / 2
    requires S.Carries(seg, absolute, s) && !rcv.reasm.out.error
    requires if rcv.isn.Some? then absolute <= R.NextWanted(rcv) else seg.header.syn
    ensures var now := R.Receive(rcv, seg);
      absolute + Length(seg) <= R.NextWanted(now) || now.reasm.next == Reassembly.Edge(now.reasm)
  {
    R.ArriveAdvances(rcv, R.SegmentArrival(seg));
    R.ReceiveInv(rcv, seg);
    SynNamesIsn(s, seg, absolute);
    if !rcv.reasm.out.ended && !seg.header.syn && Length(seg) > 0 {
      PushedWhereSent(rcv, s, seg, absolute);
      var index := R.StreamIndex(R.AbsoluteSeqno(rcv, s.isn, seg), false);
      if rcv.reasm.next in rcv.reasm.frags {
        NoSegmentBeginsAtLeftover(rcv.reasm, s, absolute);
      }
      PushAdvances(rcv.reasm, seg.payload, index, seg.header.fin, S.Sent(s), s.finSent);
    }
  }

  /** The oldest outstanding segment, which the timer retransmits, always begins no later than what the peer wants. */
  lemma OldestIsWanted(x: Connection, y: Connection, xy: set<TCPSegment>, yx: set<TCPSegment>)
    requires ConnInv(x) && ConnInv(y) && Flow(x, y, xy, yx) && x.sender.outstanding != map[]
    ensures var k := S.Oldest(x.sender);
      && k in x.sender.outstanding && S.Carries(x.sender.outstanding[k], k, x.sender) && k <= Wanted(y)
  {
  }

  /** The segment at the end of the queue after the timer has fired. */
  lemma TickResendsOldest(x: Connection, ms: nat)
    requires ConnInv(x) && x.active && S.Expires(x.sender, ms) && Tick(x, ms).sender.retx <= MAX_RETX_ATTEMPTS
    ensures var k := S.Oldest(x.sender);
      && k in x.sender.outstanding
      && Tick(x, ms).queue == x.queue + [Stamp(x.receiver, x.sender.outstanding[k])]
  {
    hide S.SenderInv, S.InFlight, R.ReceiverInv, MaximallyFilled;
    assert S.Tick(x.sender, ms).queue == [x.sender.outstanding[S.Oldest(x.sender)]];
  }

  /** What is stamped means what it meant; and a segment that begins at number zero is the SYN. */
  lemma StampedCarries(s: S.Sender, rcv: R.Receiver, seg: TCPSegment, k: nat)
    requires S.Carries(seg, k, s) && S.Plain(seg)
    ensures S.Carries(Stamp(rcv, seg), k, s) && !Stamp(rcv, seg).header.rst && Length(Stamp(rcv, seg)) == Length(seg)
    ensures k == 0 && Length(seg) > 0 ==> Stamp(rcv, seg).header.syn
  {
  }

  /** The peer wants `n` or more, or its window is full. */
  ghost predicate WantsFrom(y: Connection, n: nat) {
    n <= Wanted(y) || y.receiver.reasm.next == Reassembly.Edge(y.receiver.reasm)
  }

  /** The timer of an active endpoint fires, and it does not give up. */
  ghost predicate Resends(x: Connection, ms: nat) {
    x.active && S.Expires(x.sender, ms) && Tick(x, ms).sender.retx <= MAX_RETX_ATTEMPTS
  }

  predicate Listens(y: Connection) { y.active && !y.receiver.reasm.out.error }

  /**
   * The one segment the tick queues, once delivered to `y`, makes it want what follows the oldest outstanding
   * segment.
   */
  ghost predicate Heals(x: Connection, y: Connection, ms: nat) {
    var resent, k := Tick(x, ms).queue, S.Oldest(x.sender);
    && |resent| == |x.queue| + 1 && k in x.sender.outstanding
    && WantsFrom(Apply(y, Deliver(resent[|x.queue|])), k + Length(x.sender.outstanding[k]))
  }

  lemma ResendHeals(x: Connection, y: Connection, xy: set<TCPSegment>, yx: set<TCPSegment>, ms: nat)
    requires ConnInv(x) && ConnInv(y) && Flow(x, y, xy, yx) && Resends(x, ms) && Listens(y)
    ensures Heals(x, y, ms)
  {
    hide Flow, S.InFlight, S.Tick, Tick, Apply, S.Oldest, S.Carries, Wanted, Stamp;
    TickResendsOldest(x, ms);
    OldestIsWanted(x, y, xy, yx);
    var k := S.Oldest(x.sender);
    var seg := x.sender.outstanding[k];
    PlainAndLong(x, k);
    StampedCarries(x.sender, x.receiver, seg, k);
    NothingKnownWantsZero(x, y, xy, yx);
    RetransmissionAdvances(x, y, xy, yx, Stamp(x.receiver, seg), k);
  }

  lemma PlainAndLong(x: Connection, k: nat)
    requires ConnInv(x) && k in x.sender.outstanding
    ensures S.Plain(x.sender.outstanding[k]) && Length(x.sender.outstanding[k]) > 0
  {
  }

  /** A peer that has no SYN wants number zero, and has not acknowledged anything. */
  lemma NothingKnownWantsZero(x: Connection, y: Connection, xy: set<TCPSegment>, yx: set<TCPSegment>)
    requires Flow(x, y, xy, yx)
    ensures y.receiver.isn.None? ==> Wanted(y) == 0
  {
  }

  /**
   Retransmission heals any loss: in every reachable state, when the timer of either endpoint fires and it does not give
   up, the segment it queues, once delivered to an open peer, makes the peer want what follows it, unless the peer's
   window is full.
   */
  lemma ResendingHeals(sys: System, steps: seq<Step>, end: System, side: Side, ms: nat)
    requires Initial(sys) && Reaches(sys, steps, end)
    requires Resends(At(end, side), ms) && Listens(At(end, Other(side)))
    ensures Heals(At(end, side), At(end, Other(side)), ms)
  {
    hide Initial, Resends, Listens, Heals, Flow;
    InitialInv(sys);
    ReachableInv(sys, steps, end);
    ResendHeals(At(end, side), At(end, Other(side)), InTransitTo(end, Other(side)), InTransitTo(end, side), ms);
  }
}
