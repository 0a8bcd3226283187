/** What one endpoint of a connection does (tcp_connection.cc), as functions on values. */
module Connecting {
  import opened Words
  import opened TCPConfig
  import opened ByteStreams
  import opened TCPSegments
  import opened WrappingIntegers
  import R = Receiving
  import S = Sending
  import Reassembly

  datatype Connection = Connection(
    rtTimeout: U16, sender: S.Sender, receiver: R.Receiver, queue: seq<TCPSegment>,
    linger: bool, active: bool, since: nat)

  function NewConnection(recvCapacity: nat, sendCapacity: nat, rtTimeout: U16, isn: U32): Connection {
    Connection(rtTimeout, S.NewSender(sendCapacity, rtTimeout, isn), R.NewReceiver(recvCapacity), [], true, true, 0)
  }

  /** The fields the receiver owns are filled in as a segment leaves. */
  function Stamp(rcv: R.Receiver, seg: TCPSegment): TCPSegment {
    var h := seg.header.(win := Min(R.WindowSize(rcv), TWO16 - 1));
    seg.(header := if R.AckNo(rcv).Some? then h.(ack := true, ackno := R.AckNo(rcv).value) else h)
  }

  function StampAll(rcv: R.Receiver, segs: seq<TCPSegment>): (out: seq<TCPSegment>)
    ensures |out| == |segs| && forall i :: 0 <= i < |segs| ==> out[i] == Stamp(rcv, segs[i])
  {
    seq(|segs|, i requires 0 <= i < |segs| => Stamp(rcv, segs[i]))
  }

  function PushSegmentsOut(c: Connection): Connection {
    c.(queue := c.queue + StampAll(c.receiver, c.sender.queue), sender := c.sender.(queue := []))
  }

  function FailInbound(rcv: R.Receiver): R.Receiver {
    rcv.(reasm := rcv.reasm.(out := rcv.reasm.out.(error := true)))
  }

  /** The reset is built from the front of the sender's queue, which need not be the empty segment just added. */
  function ResetSegment(s: S.Sender): TCPSegment {
    var front := S.SendEmpty(s).queue[0];
    front.(header := front.header.(ack := false, rst := true))
  }

  function UncleanShutdown(c: Connection, sendRst: bool): Connection {
    var c1 := c.(sender := S.FailStream(c.sender), receiver := FailInbound(c.receiver), active := false);
    if !sendRst then c1
    else
      var s := S.SendEmpty(c1.sender);
      c1.(sender := s.(queue := s.queue[1..]), queue := c.queue + [ResetSegment(c1.sender)])
  }

  /** A segment that occupies sequence space is answered, and so is a keep-alive just below the wanted number. */
  predicate NeedsAnswer(rcv: R.Receiver, seg: TCPSegment) {
    Length(seg) > 0 ||
    (R.AckNo(rcv).Some? && seg.header.seqno == (R.AckNo(rcv).value - 1) % TWO32)
  }

  function Answer(s: S.Sender): S.Sender {
    var filled := S.FillWindow(s);
    if filled.queue == [] then S.SendEmpty(filled) else filled
  }

  ghost function SegmentReceived(c: Connection, seg: TCPSegment): Connection {
    if !c.active then c
    else if seg.header.rst then UncleanShutdown(c.(since := 0), false)
    else
      var rcv := R.Receive(c.receiver, seg);
      var acked := if seg.header.ack then S.AckReceived(c.sender, seg.header.ackno, seg.header.win) else c.sender;
      var linger := c.linger && !(rcv.reasm.out.ended && !Eof(acked.stream));
      var snd := if NeedsAnswer(rcv, seg) then Answer(acked) else acked;
      PushSegmentsOut(c.(since := 0, receiver := rcv, sender := snd, linger := linger))
  }

  function WriteData(c: Connection, data: seq<Byte>): Connection {
    if !c.active then c
    else PushSegmentsOut(c.(sender := S.FillWindow(S.WriteStream(c.sender, data))))
  }

  function EndInputStream(c: Connection): Connection {
    PushSegmentsOut(c.(sender := S.FillWindow(S.EndStream(c.sender))))
  }

  function Connect(c: Connection): Connection {
    PushSegmentsOut(c.(sender := S.FillWindow(c.sender), active := true))
  }

  ghost function Tick(c: Connection, ms: nat): Connection {
    if !c.active then c
    else
      var c1 := c.(since := c.since + ms, sender := S.Tick(c.sender, ms));
      if c1.sender.retx > MAX_RETX_ATTEMPTS then UncleanShutdown(c1, true)
      else
        var c2 := PushSegmentsOut(c1);
        if && c2.receiver.reasm.out.ended && Eof(c2.sender.stream) && S.InFlight(c2.sender.outstanding) == 0
           && (!c2.linger || c2.since >= 10 * c2.rtTimeout)
        then c2.(active := false)
        else c2
  }

  function ReadInbound(c: Connection, len: nat): Connection {
    c.(receiver := R.ReadInbound(c.receiver, len))
  }

  // ---------------------------------------------------------------- invariants

  /** The sender has sent all it may; the one exception is an endpoint that has not begun. */
  ghost predicate MaximallyFilled(s: S.Sender) {
    S.NextSegment(s).None? || (!s.synSent && s.stream.all == [] && !s.stream.ended)
  }

  /** What holds in the middle of a call as well. */
  ghost predicate ConnCore(c: Connection) {
    && S.SenderInv(c.sender) && R.ReceiverInv(c.receiver)
    && MaximallyFilled(c.sender)
    && (c.sender.stream.error <==> c.receiver.reasm.out.error)
    && (!c.sender.stream.error ==> c.sender.retx <= MAX_RETX_ATTEMPTS)
  }

  /** Between calls an active connection has taken everything its sender queued. */
  ghost predicate ConnInv(c: Connection) {
    ConnCore(c) && (c.active ==> c.sender.queue == [])
  }

  datatype Event =
    | Deliver(seg: TCPSegment) | WriteEvent(data: seq<Byte>) | EndEvent
    | ConnectEvent | TickEvent(ms: nat) | ReadEvent(len: nat)

  ghost function Apply(c: Connection, e: Event): Connection {
    match e
    case Deliver(seg) => SegmentReceived(c, seg)
    case WriteEvent(data) => WriteData(c, data)
    case EndEvent => EndInputStream(c)
    case ConnectEvent => Connect(c)
    case TickEvent(ms) => Tick(c, ms)
    case ReadEvent(len) => ReadInbound(c, len)
  }

  ghost function RunEvents(c: Connection, events: seq<Event>): Connection
    decreases |events|
  {
    if events == [] then c else RunEvents(Apply(c, events[0]), events[1..])
  }

  lemma NewConnInv(recvCapacity: nat, sendCapacity: nat, rtTimeout: U16, isn: U32)
    ensures ConnInv(NewConnection(recvCapacity, sendCapacity, rtTimeout, isn))
  {
    S.NewInv(sendCapacity, rtTimeout, isn);
  }

  lemma FilledInv(s: S.Sender)
    requires S.SenderInv(s)
    ensures var f := S.FillWindow(s);
      && S.SenderInv(f) && S.Extends(s, f) && S.NextSegment(f).None?
      && f.retx == s.retx && f.stream.error == s.stream.error && f.stream.ended == s.stream.ended
      && f.stream.all == s.stream.all && s.queue <= f.queue && f.ackno == s.ackno
  {
    S.FillInv(s);
    S.FillKeepsTimer(s);
  }

  lemma DrainedInv(s: S.Sender)
    requires S.SenderInv(s)
    ensures S.SenderInv(s.(queue := [])) && S.Extends(s, s.(queue := []))
    ensures MaximallyFilled(s) ==> MaximallyFilled(s.(queue := []))
  {
    S.StreamInv(s, []);
  }

  lemma PushOutInv(c: Connection)
    requires ConnCore(c)
    ensures ConnInv(PushSegmentsOut(c)) && S.Extends(c.sender, PushSegmentsOut(c).sender)
  {
    DrainedInv(c.sender);
  }

  lemma DropFront(s: S.Sender)
    requires S.SenderInv(s) && s.queue != []
    ensures S.SenderInv(s.(queue := s.queue[1..])) && S.Extends(s, s.(queue := s.queue[1..]))
  {
    S.TracksFewer(s, s.(queue := s.queue[1..]));
  }

  lemma ShutdownSender(s: S.Sender)
    requires S.SenderInv(s) && MaximallyFilled(s)
    ensures var f := S.FailStream(s);
      && S.SenderInv(f) && S.Extends(s, f) && MaximallyFilled(f)
      && S.SenderInv(S.SendEmpty(f)) && S.Extends(s, S.SendEmpty(f))
  {
    hide S.SenderInv, S.Extends, S.SendEmpty, MaximallyFilled;
    S.StreamInv(s, []);
    FailKeepsFilled(s);
    S.SendEmptyInv(S.FailStream(s));
    S.ExtendsTransitive(s, S.FailStream(s), S.SendEmpty(S.FailStream(s)));
  }

  lemma FailKeepsFilled(s: S.Sender)
    requires MaximallyFilled(s)
    ensures MaximallyFilled(S.FailStream(s))
  {
  }

  lemma ShutdownInv(c: Connection, sendRst: bool)
    requires S.SenderInv(c.sender) && R.ReceiverInv(c.receiver) && MaximallyFilled(c.sender)
    ensures ConnInv(UncleanShutdown(c, sendRst)) && S.Extends(c.sender, UncleanShutdown(c, sendRst).sender)
  {
    hide S.CoreInv;
    ShutdownSender(c.sender);
    var e := S.SendEmpty(S.FailStream(c.sender));
    DropFront(e);
    S.ExtendsTransitive(c.sender, e, e.(queue := e.queue[1..]));
  }

  lemma AnswerInv(s: S.Sender)
    requires S.SenderInv(s)
    ensures var a := Answer(s);
      && S.SenderInv(a) && S.Extends(s, a) && S.NextSegment(a).None?
      && a.retx == s.retx && a.stream.error == s.stream.error && a.stream.ended == s.stream.ended
      && a.stream.all == s.stream.all && a.ackno == s.ackno
  {
    hide S.CoreInv;
    FilledInv(s);
    var f := S.FillWindow(s);
    S.SendEmptyInv(f);
    S.ExtendsTransitive(s, f, S.SendEmpty(f));
  }

  lemma ReceivedInv(c: Connection, seg: TCPSegment)
    requires ConnInv(c)
    ensures ConnInv(SegmentReceived(c, seg)) && S.Extends(c.sender, SegmentReceived(c, seg).sender)
  {
    hide S.CoreInv, Reassembly.Inv, S.AckReceived, Answer, R.Receive, S.Extends;
    S.ExtendsReflexive(c.sender);
    if c.active {
      if seg.header.rst {
        ShutdownInv(c.(since := 0), false);
      } else {
        R.ReceiveInv(c.receiver, seg);
        R.ReceiveKeepsError(c.receiver, seg);
        S.AckInv(c.sender, seg.header.ackno, seg.header.win);
        var acked := if seg.header.ack then S.AckReceived(c.sender, seg.header.ackno, seg.header.win) else c.sender;
        AnswerInv(acked);
        var rcv := R.Receive(c.receiver, seg);
        var snd := if NeedsAnswer(rcv, seg) then Answer(acked) else acked;
        S.ExtendsTransitive(c.sender, acked, Answer(acked));
        DrainedInv(snd);
        S.ExtendsTransitive(c.sender, snd, snd.(queue := []));
      }
    }
  }

  lemma FillAndPush(c: Connection, s: S.Sender)
    requires ConnInv(c) && S.SenderInv(s) && S.Extends(c.sender, s)
    requires s.retx == c.sender.retx && s.stream.error == c.sender.stream.error
    ensures var c' := PushSegmentsOut(c.(sender := S.FillWindow(s)));
      ConnInv(c') && S.Extends(c.sender, c'.sender) && S.NextSegment(c'.sender).None?
  {
    hide S.CoreInv, Reassembly.Inv;
    FilledInv(s);
    var f := S.FillWindow(s);
    DrainedInv(f);
    S.ExtendsTransitive(c.sender, s, f);
    S.ExtendsTransitive(c.sender, f, f.(queue := []));
  }

  /** A tick moves nothing that filling looks at. */
  lemma TickKeepsFilled(s: S.Sender, ms: nat)
    requires MaximallyFilled(s)
    ensures MaximallyFilled(S.Tick(s, ms)) && S.Tick(s, ms).stream == s.stream
  {
    assert S.NextSegment(S.Tick(s, ms)) == S.NextSegment(s);
  }

  lemma TickInv(c: Connection, ms: nat)
    requires ConnInv(c)
    ensures ConnInv(Tick(c, ms)) && S.Extends(c.sender, Tick(c, ms).sender)
  {
    hide S.SenderInv, R.ReceiverInv, MaximallyFilled, S.Tick, S.Extends, S.InFlight, UncleanShutdown, StampAll;
    S.ExtendsReflexive(c.sender);
    if c.active {
      S.TickInv(c.sender, ms);
      var c1 := c.(since := c.since + ms, sender := S.Tick(c.sender, ms));
      TickKeepsFilled(c.sender, ms);
      if c1.sender.retx > MAX_RETX_ATTEMPTS {
        ShutdownInv(c1, true);
        S.ExtendsTransitive(c.sender, c1.sender, UncleanShutdown(c1, true).sender);
      } else {
        PushOutInv(c1);
        S.ExtendsTransitive(c.sender, c1.sender, PushSegmentsOut(c1).sender);
      }
    }
  }

  /** Every public call keeps the connection's invariant, and only extends what the sender has committed to. */
  lemma ApplyInv(c: Connection, e: Event)
    requires ConnInv(c)
    ensures ConnInv(Apply(c, e)) && S.Extends(c.sender, Apply(c, e).sender)
  {
    hide S.CoreInv, Reassembly.Inv, Tick, SegmentReceived;
    match e
    case Deliver(seg) => ReceivedInv(c, seg);
    case WriteEvent(data) =>
      S.StreamInv(c.sender, data);
      if c.active { FillAndPush(c, S.WriteStream(c.sender, data)); }
    case EndEvent =>
      S.StreamInv(c.sender, []);
      FillAndPush(c, S.EndStream(c.sender));
    case ConnectEvent =>
      FillAndPush(c, c.sender);
    case TickEvent(ms) => TickInv(c, ms);
    case ReadEvent(len) => R.ReadInv(c.receiver, len); S.ExtendsReflexive(c.sender);
  }

  // ---------------------------------------------------------------- what leaves the endpoint

  /** A queued segment means what the sender's numbering says and acknowledges what the receiver wants now. */
  ghost predicate Outgoing(seg: TCPSegment, c: Connection) {
    && S.Carried(seg, c.sender)
    && (seg.header.ack ==> R.AckNo(c.receiver) == Some(seg.header.ackno))
  }

  ghost predicate QueueGrows(c: Connection, c': Connection) {
    && c.queue <= c'.queue
    && forall i :: |c.queue| <= i < |c'.queue| ==> Outgoing(c'.queue[i], c')
  }

  lemma StampCarries(seg: TCPSegment, rcv: R.Receiver, s: S.Sender)
    requires S.Carried(seg, s)
    ensures S.Carried(Stamp(rcv, seg), s)
  {
    var absolute :| S.Carries(seg, absolute, s);
    assert S.Carries(Stamp(rcv, seg), absolute, s);
  }

  lemma PushOutQueue(c: Connection)
    requires S.SenderInv(c.sender)
    ensures QueueGrows(c, PushSegmentsOut(c))
  {
    var c' := PushSegmentsOut(c);
    forall i | |c.queue| <= i < |c'.queue| ensures Outgoing(c'.queue[i], c') {
      var seg := c.sender.queue[i - |c.queue|];
      StampCarries(seg, c.receiver, c.sender);
      S.CarriedExtends(Stamp(c.receiver, seg), c.sender, c'.sender);
    }
  }

  lemma ShutdownQueue(c: Connection, sendRst: bool)
    requires S.SenderInv(c.sender) && MaximallyFilled(c.sender)
    ensures QueueGrows(c, UncleanShutdown(c, sendRst))
  {
    hide S.SenderInv, MaximallyFilled, S.Carried, S.Extends;
    if sendRst {
      ShutdownSender(c.sender);
      ResetCarried(S.FailStream(c.sender));
    }
  }

  /** The reset means what the front of the queue means. */
  lemma ResetCarried(s: S.Sender)
    requires S.SenderInv(S.SendEmpty(s))
    ensures var e := S.SendEmpty(s); S.Carried(ResetSegment(s), e.(queue := e.queue[1..]))
  {
    var e := S.SendEmpty(s);
    var front := e.queue[0];
    var absolute :| S.Carries(front, absolute, e);
    assert S.Carries(ResetSegment(s), absolute, e.(queue := e.queue[1..]));
  }

  /** Whatever call is made, the queue only grows, by segments that mean what they should. */
  lemma ApplyQueue(c: Connection, e: Event)
    requires ConnInv(c)
    ensures QueueGrows(c, Apply(c, e))
  {
    hide S.CoreInv, Reassembly.Inv, QueueGrows;
    SameQueue(c, Apply(c, e));
    match e
    case Deliver(seg) =>
      if c.active {
        if seg.header.rst {
          ShutdownQueue(c.(since := 0), false);
          QueueFrom(c, c.(since := 0), Apply(c, e));
        } else {
          ReceivedSender(c, seg);
          PushOutQueue(BeforePush(c, seg));
          QueueFrom(c, BeforePush(c, seg), Apply(c, e));
        }
      }
    case WriteEvent(data) =>
      S.StreamInv(c.sender, data);
      FilledInv(S.WriteStream(c.sender, data));
      var c1 := c.(sender := S.FillWindow(S.WriteStream(c.sender, data)));
      PushOutQueue(c1);
      QueueFrom(c, c1, PushSegmentsOut(c1));
    case EndEvent =>
      S.StreamInv(c.sender, []);
      FilledInv(S.EndStream(c.sender));
      var c1 := c.(sender := S.FillWindow(S.EndStream(c.sender)));
      PushOutQueue(c1);
      QueueFrom(c, c1, PushSegmentsOut(c1));
    case ConnectEvent =>
      FilledInv(c.sender);
      var c1 := c.(sender := S.FillWindow(c.sender), active := true);
      PushOutQueue(c1);
      QueueFrom(c, c1, PushSegmentsOut(c1));
    case TickEvent(ms) => TickQueue(c, ms);
    case ReadEvent(len) =>
  }

  lemma SameQueue(c: Connection, c': Connection)
    ensures c'.queue == c.queue ==> QueueGrows(c, c')
  {
  }

  lemma QueueFrom(c: Connection, c1: Connection, c': Connection)
    requires c1.queue == c.queue && QueueGrows(c1, c')
    ensures QueueGrows(c, c')
  {
  }

  lemma QueueThen(c: Connection, c': Connection)
    requires QueueGrows(c, c')
    ensures QueueGrows(c, c'.(active := false))
  {
    forall i | |c.queue| <= i < |c'.queue| ensures Outgoing(c'.queue[i], c'.(active := false)) {
      assert Outgoing(c'.queue[i], c');
    }
  }

  lemma SameSegmentNext(s: S.Sender, ms: nat)
    ensures MaximallyFilled(s) ==> MaximallyFilled(S.Tick(s, ms))
  {
  }

  lemma TickQueue(c: Connection, ms: nat)
    requires ConnInv(c)
    ensures QueueGrows(c, Tick(c, ms))
  {
    hide S.CoreInv, Reassembly.Inv, QueueGrows, S.NextSegment;
    if c.active {
      S.TickInv(c.sender, ms);
      var c1 := c.(since := c.since + ms, sender := S.Tick(c.sender, ms));
      SameSegmentNext(c.sender, ms);
      if c1.sender.retx > MAX_RETX_ATTEMPTS {
        ShutdownQueue(c1, true);
        QueueFrom(c, c1, UncleanShutdown(c1, true));
      } else {
        PushOutQueue(c1);
        QueueFrom(c, c1, PushSegmentsOut(c1));
        QueueThen(c, PushSegmentsOut(c1));
      }
    } else {
      SameQueue(c, c);
    }
  }

  /** The connection just before `segment_received` pushes its segments out. */
  ghost function BeforePush(c: Connection, seg: TCPSegment): Connection {
    var rcv := R.Receive(c.receiver, seg);
    var acked := if seg.header.ack then S.AckReceived(c.sender, seg.header.ackno, seg.header.win) else c.sender;
    var linger := c.linger && !(rcv.reasm.out.ended && !Eof(acked.stream));
    c.(since := 0, receiver := rcv, sender := if NeedsAnswer(rcv, seg) then Answer(acked) else acked, linger := linger)
  }

  lemma ReceivedSender(c: Connection, seg: TCPSegment)
    requires ConnInv(c)
    ensures S.SenderInv(BeforePush(c, seg).sender)
    ensures c.active && !seg.header.rst ==> SegmentReceived(c, seg) == PushSegmentsOut(BeforePush(c, seg))
  {
    hide S.SenderInv, S.AckReceived, Answer, R.Receive, R.ReceiverInv, MaximallyFilled, S.Extends, NeedsAnswer;
    S.AckInv(c.sender, seg.header.ackno, seg.header.win);
    AnswerInv(if seg.header.ack then S.AckReceived(c.sender, seg.header.ackno, seg.header.win) else c.sender);
  }

  /** Whatever occupies sequence space is answered: the last segment queued acknowledges what is now wanted. */
  lemma EveryDataSegmentIsAnswered(c: Connection, seg: TCPSegment)
    requires ConnInv(c) && c.active && !seg.header.rst && Length(seg) > 0
    ensures var c' := SegmentReceived(c, seg);
      && |c'.queue| > |c.queue|
      && (R.AckNo(c'.receiver).Some? ==>
            (var last := c'.queue[|c'.queue| - 1];
             last.header.ack && !last.header.rst && R.AckNo(c'.receiver) == Some(last.header.ackno)))
  {
    ReceivedSender(c, seg);
    var segs := BeforePush(c, seg).sender.queue;
    assert segs != [];
    PlainQueue(BeforePush(c, seg).sender, |segs| - 1);
  }

  lemma PlainQueue(s: S.Sender, i: nat)
    requires S.SenderInv(s) && i < |s.queue|
    ensures S.Plain(s.queue[i])
  {
  }

  /** A segment that is no reset acknowledges all that is wanted, once anything is. */
  predicate Acks(seg: TCPSegment, c: Connection) {
    seg.header.rst ||
    (R.AckNo(c.receiver).Some? ==> seg.header.ack && R.AckNo(c.receiver) == Some(seg.header.ackno))
  }

  /** Whatever call is made, all it queues but resets acknowledges what is wanted after it. */
  lemma ApplyAcks(c: Connection, e: Event)
    ensures var c' := Apply(c, e);
      |c.queue| <= |c'.queue| && forall i :: |c.queue| <= i < |c'.queue| ==> Acks(c'.queue[i], c')
  {
    hide R.Receive, S.FillWindow, S.AckReceived, Answer, S.Tick, S.InFlight, NeedsAnswer, Stamp;
    StampsAck(c.receiver);
    if e.Deliver? { StampsAck(R.Receive(c.receiver, e.seg)); }
  }

  lemma StampsAck(rcv: R.Receiver)
    ensures forall seg :: R.AckNo(rcv).Some? ==>
      Stamp(rcv, seg).header.ack && Stamp(rcv, seg).header.ackno == R.AckNo(rcv).value
  {
  }

  lemma KnownSender(c: Connection)
    requires ConnInv(c)
    ensures S.SenderInv(c.sender)
  {
  }

  lemma ReceivedAckno(c: Connection, seg: TCPSegment)
    requires ConnInv(c)
    ensures var now := SegmentReceived(c, seg).sender.ackno;
      now == c.sender.ackno ||
      (seg.header.ack && now == Unwrap(seg.header.ackno, c.sender.isn, c.sender.ackno) <= c.sender.next)
  {
    hide S.SenderInv, R.ReceiverInv, MaximallyFilled, S.FillWindow, S.AckReceived, S.Extends, R.Receive,
         S.NextSegment, Answer;
    KnownSender(c);
    S.AckInv(c.sender, seg.header.ackno, seg.header.win);
    AnswerInv(if seg.header.ack then S.AckReceived(c.sender, seg.header.ackno, seg.header.win) else c.sender);
  }

  /** Only a delivered acknowledgment moves `_ackno`, and only to where its own number unwraps. */
  lemma ApplyAckno(c: Connection, e: Event)
    requires ConnInv(c)
    ensures var now := Apply(c, e).sender.ackno;
      now == c.sender.ackno ||
      (e.Deliver? && e.seg.header.ack &&
        now == Unwrap(e.seg.header.ackno, c.sender.isn, c.sender.ackno) <= c.sender.next)
  {
    hide S.SenderInv, R.ReceiverInv, MaximallyFilled, S.FillWindow, SegmentReceived, Tick, StampAll, S.Extends,
         S.NextSegment, Stamp;
    KnownSender(c);
    match e
    case Deliver(seg) => ReceivedAckno(c, seg);
    case WriteEvent(data) =>
      S.StreamInv(c.sender, data);
      FilledInv(S.WriteStream(c.sender, data));
    case EndEvent =>
      S.StreamInv(c.sender, []);
      FilledInv(S.EndStream(c.sender));
    case ConnectEvent => FilledInv(c.sender);
    case TickEvent(ms) => TickKeepsAckno(c, ms);
    case ReadEvent(len) =>
  }

  lemma TickKeepsAckno(c: Connection, ms: nat)
    ensures Tick(c, ms).sender.ackno == c.sender.ackno
  {
    hide S.InFlight, StampAll, S.Tick, ResetSegment;
    SenderTickKeepsAckno(c.sender, ms);
  }

  lemma SenderTickKeepsAckno(s: S.Sender, ms: nat)
    ensures S.Tick(s, ms).ackno == s.ackno
  {
  }

  /** What each call does to the receiver: only a delivered segment and a reader change more than the error flag. */
  lemma ApplyReceiver(c: Connection, e: Event)
    ensures var rcv, now := c.receiver, Apply(c, e).receiver;
      match e
      case Deliver(seg) =>
        now == rcv || now == FailInbound(rcv) || (c.active && !seg.header.rst && now == R.Receive(rcv, seg))
      case ReadEvent(len) => now == R.ReadInbound(rcv, len)
      case _ => now == rcv || now == FailInbound(rcv)
  {
  }

  // ---------------------------------------------------------------- giving up

  function AsReset(seg: TCPSegment): TCPSegment { seg.(header := seg.header.(ack := false, rst := true)) }

  /** What a sender with nothing queued has at the front of its queue after a tick and an empty segment. */
  lemma FrontAfterTick(s: S.Sender, ms: nat)
    requires s.queue == []
    ensures if S.Expires(s, ms) then S.Oldest(s) in s.outstanding else S.Tick(s, ms).retx == s.retx
    ensures S.SendEmpty(S.FailStream(S.Tick(s, ms))).queue[0] ==
            if S.Expires(s, ms) then s.outstanding[S.Oldest(s)] else TCPSegment(S.HeaderAt(s), [])
  {
  }

  /**
   * A tick that gives up queues one reset: the segment it has just resent, with its number, payload and flags; only
   * on a connection that was past the limit already, and has nothing to resend, is it an empty segment.
   */
  lemma GivingUpResetsOldest(c: Connection, ms: nat)
    requires ConnInv(c) && c.active && Tick(c, ms).sender.retx > MAX_RETX_ATTEMPTS
    ensures c.sender.retx <= MAX_RETX_ATTEMPTS ==> S.Expires(c.sender, ms)
    ensures S.Expires(c.sender, ms) ==>
      S.Oldest(c.sender) in c.sender.outstanding
      && Tick(c, ms).queue == c.queue + [AsReset(c.sender.outstanding[S.Oldest(c.sender)])]
    ensures !S.Expires(c.sender, ms) ==> Tick(c, ms).queue == c.queue + [AsReset(TCPSegment(S.HeaderAt(c.sender), []))]
  {
    hide S.SenderInv, S.InFlight, S.SendEmpty, S.Tick, S.Expires, S.Oldest, StampAll, R.ReceiverInv, MaximallyFilled;
    FrontAfterTick(c.sender, ms);
  }

  // ---------------------------------------------------------------- clean close

  /** Both directions are over: every byte and the FIN are acknowledged, and the inbound stream is complete. */
  ghost predicate FinishedCleanly(c: Connection) {
    && c.sender.synSent && c.sender.finSent && c.sender.stream.ended && c.sender.outstanding == map[]
    && c.sender.ackno == c.sender.next == |c.sender.stream.all| + 2
    && c.receiver.isn.Some? && c.receiver.reasm.out.ended
  }

  /** The two tests `tick` makes on the sender amount to a FIN that is sent and acknowledged. */
  lemma AllAcked(s: S.Sender)
    requires S.SenderInv(s) && MaximallyFilled(s)
    ensures Eof(s.stream) && S.InFlight(s.outstanding) == 0 <==>
      s.synSent && s.finSent && s.ackno == s.next == |s.stream.all| + 2
  {
    S.BytesInFlight(s);
  }

  /**
   * Clean close is sound: unless it gives up on retransmissions, `tick` deactivates a connection only when it is
   * over.
   */
  lemma CleanClose(c: Connection, ms: nat)
    requires ConnInv(c) && c.active && !Tick(c, ms).active && Tick(c, ms).sender.retx <= MAX_RETX_ATTEMPTS
    ensures FinishedCleanly(Tick(c, ms))
    ensures Tick(c, ms).linger ==> Tick(c, ms).since >= 10 * c.rtTimeout
  {
    TickInv(c, ms);
    var c' := Tick(c, ms);
    AllAcked(c'.sender);
  }

  /** And complete: `tick` keeps a connection active only if it is not over or still has to linger. */
  lemma CloseIsComplete(c: Connection, ms: nat)
    requires ConnInv(c) && c.active && Tick(c, ms).active
    ensures !FinishedCleanly(Tick(c, ms)) || (Tick(c, ms).linger && Tick(c, ms).since < 10 * c.rtTimeout)
  {
    TickInv(c, ms);
    AllAcked(Tick(c, ms).sender);
  }
}
