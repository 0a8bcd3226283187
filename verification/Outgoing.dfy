/**
 * What leaves an endpoint (tcp_connection.cc): the window and the number it advertises, and when it answers a segment
 * that brings nothing.
 */
module Outgoings {
  import opened Words
  import opened TCPConfig
  import opened WrappingIntegers
  import opened TCPSegments
  import opened Connecting
  import F = Fillings
  import R = Receiving
  import S = Sending

  // ---------------------------------------------------------------- what is advertised

  /** The free space of the inbound stream, as far as 16 bits tell it. */
  function FreeSpace(rcv: R.Receiver): U16 {
    var out := rcv.reasm.out;
    Min(out.capacity - (|out.all| - out.read), 65535)
  }

  /** The first number still wanted: one for the SYN, the bytes, one for the FIN once the stream has ended. */
  function FirstWanted(rcv: R.Receiver): nat {
    1 + |rcv.reasm.out.all| + (if rcv.finReceived && rcv.reasm.out.ended then 1 else 0)
  }

  /** A segment that is no reset tells how much room there is, and once a SYN has come, what is wanted. */
  predicate Advertises(seg: TCPSegment, rcv: R.Receiver) {
    !seg.header.rst ==>
      && seg.header.win == FreeSpace(rcv)
      && seg.header.ack == rcv.isn.Some?
      && (rcv.isn.Some? ==> seg.header.ackno == Wrap(FirstWanted(rcv), rcv.isn.value))
  }

  /** Everything queued since `c` advertises what the receiver of `c'` has. */
  predicate AllAdvertise(c: Connection, c': Connection) {
    && c.queue <= c'.queue
    && forall i :: |c.queue| <= i < |c'.queue| ==> Advertises(c'.queue[i], c'.receiver)
  }

  lemma StampAdvertises(rcv: R.Receiver, seg: TCPSegment)
    requires S.Plain(seg)
    ensures Advertises(Stamp(rcv, seg), rcv)
  {
  }

  lemma QueuePlain(s: S.Sender)
    requires S.SenderInv(s)
    ensures forall seg :: seg in s.queue ==> S.Plain(seg)
  {
  }

  lemma PushAdvertises(c: Connection)
    requires S.SenderInv(c.sender)
    ensures AllAdvertise(c, PushSegmentsOut(c))
  {
    hide S.SenderInv, Advertises, Stamp, S.Plain;
    QueuePlain(c.sender);
    forall i | 0 <= i < |c.sender.queue| ensures Advertises(StampAll(c.receiver, c.sender.queue)[i], c.receiver) {
      StampAdvertises(c.receiver, c.sender.queue[i]);
    }
  }

  lemma ResetAdvertises(c: Connection, sendRst: bool)
    ensures AllAdvertise(c, UncleanShutdown(c, sendRst))
  {
  }

  lemma AdvertisesFrom(c: Connection, c1: Connection, c': Connection, c2: Connection)
    requires c1.queue == c.queue && AllAdvertise(c1, c')
    requires c2.queue == c'.queue && c2.receiver == c'.receiver
    ensures AllAdvertise(c, c2)
  {
    hide Advertises;
  }

  lemma FillAdvertises(c: Connection, s: S.Sender, data: seq<Byte>, active: bool)
    requires ConnInv(c) && (s == c.sender || s == S.WriteStream(c.sender, data) || s == S.EndStream(c.sender))
    ensures AllAdvertise(c, PushSegmentsOut(c.(sender := S.FillWindow(s), active := active)))
  {
    hide S.SenderInv, S.FillWindow, R.ReceiverInv, MaximallyFilled, PushSegmentsOut, Advertises;
    S.StreamInv(c.sender, data);
    FilledInv(s);
    var c1 := c.(sender := S.FillWindow(s), active := active);
    PushAdvertises(c1);
    AdvertisesFrom(c, c1, PushSegmentsOut(c1), PushSegmentsOut(c1));
  }

  lemma TickAdvertises(c: Connection, ms: nat)
    requires ConnInv(c)
    ensures AllAdvertise(c, Tick(c, ms))
  {
    hide S.SenderInv, S.Tick, S.InFlight, R.ReceiverInv, MaximallyFilled, PushSegmentsOut, Advertises, UncleanShutdown;
    KnownSender(c);
    if !c.active { return; }
    S.TickInv(c.sender, ms);
    var c1 := c.(since := c.since + ms, sender := S.Tick(c.sender, ms));
    if c1.sender.retx > MAX_RETX_ATTEMPTS {
      ResetAdvertises(c1, true);
      AdvertisesFrom(c, c1, UncleanShutdown(c1, true), Tick(c, ms));
    } else {
      PushAdvertises(c1);
      AdvertisesFrom(c, c1, PushSegmentsOut(c1), Tick(c, ms));
    }
  }

  /** Whatever call is made, every segment it queues carries the free space and the number wanted after the call. */
  lemma ApplyAdvertises(c: Connection, e: Event)
    requires ConnInv(c)
    ensures AllAdvertise(c, Apply(c, e))
  {
    hide ConnInv, S.FillWindow, PushSegmentsOut, Advertises, UncleanShutdown, Tick, NeedsAnswer, Answer, S.AckReceived;
    hide R.Receive;
    match e
    case Deliver(seg) =>
      if c.active {
        if seg.header.rst {
          ResetAdvertises(c.(since := 0), false);
          AdvertisesFrom(c, c.(since := 0), Apply(c, e), Apply(c, e));
        } else {
          ReceivedSender(c, seg);
          PushAdvertises(BeforePush(c, seg));
          AdvertisesFrom(c, BeforePush(c, seg), Apply(c, e), Apply(c, e));
        }
      }
    case WriteEvent(data) => if c.active { FillAdvertises(c, S.WriteStream(c.sender, data), data, c.active); }
    case EndEvent => FillAdvertises(c, S.EndStream(c.sender), [], c.active);
    case ConnectEvent => FillAdvertises(c, c.sender, [], true);
    case TickEvent(ms) => TickAdvertises(c, ms);
    case ReadEvent(len) =>
  }

  // ---------------------------------------------------------------- over runs

  /** The right edge of the window a segment advertises when `rcv` is the receiver. */
  function AdvertisedEdge(rcv: R.Receiver): nat { FirstWanted(rcv) + FreeSpace(rcv) }

  /** The receiver when each segment of a run was queued, one entry for each. */
  ghost function QueuedUnder(c: Connection, events: seq<Event>): seq<R.Receiver>
    decreases |events|
  {
    if events == [] then []
    else
      var c' := Apply(c, events[0]);
      (if |c'.queue| <= |c.queue| then [] else seq(|c'.queue| - |c.queue|, _ => c'.receiver))
        + QueuedUnder(c', events[1..])
  }

  lemma EventMoves(c: Connection, e: Event)
    requires ConnInv(c)
    ensures var c' := Apply(c, e);
      FirstWanted(c.receiver) <= FirstWanted(c'.receiver) && AdvertisedEdge(c.receiver) <= AdvertisedEdge(c'.receiver)
  {
    hide Apply, S.SenderInv, MaximallyFilled, R.Receive;
    ApplyReceiver(c, e);
    ApplyInv(c, e);
    if e.Deliver? { R.ArriveAdvances(c.receiver, R.SegmentArrival(e.seg)); }
    if e.ReadEvent? { R.ArriveAdvances(c.receiver, R.ReadArrival(e.len)); }
    SameEdge(c.receiver);
    SameEdge(Apply(c, e).receiver);
  }

  lemma SameEdge(rcv: R.Receiver)
    ensures AdvertisedEdge(rcv) == R.ClampedEdge(rcv) && FirstWanted(rcv) == R.NextWanted(rcv)
  {
  }

  /** The receivers from `from` on, each no further back than the one before. */
  ghost predicate Advancing(from: R.Receiver, rcvs: seq<R.Receiver>) {
    forall i :: 0 <= i < |rcvs| ==>
      && AdvertisedEdge(from) <= AdvertisedEdge(rcvs[i])
      && forall j :: i <= j < |rcvs| ==> AdvertisedEdge(rcvs[i]) <= AdvertisedEdge(rcvs[j])
  }

  ghost predicate AdvertisedUnder(c: Connection, end: Connection, rcvs: seq<R.Receiver>) {
    && c.queue <= end.queue && |end.queue| == |c.queue| + |rcvs|
    && forall i :: 0 <= i < |rcvs| ==> Advertises(end.queue[|c.queue| + i], rcvs[i])
  }

  lemma AdvancingThen(a: R.Receiver, b: R.Receiver, n: nat, rest: seq<R.Receiver>)
    requires AdvertisedEdge(a) <= AdvertisedEdge(b) && Advancing(b, rest)
    ensures Advancing(a, seq(n, _ => b) + rest)
  {
    hide AdvertisedEdge;
    var s := seq(n, _ => b) + rest;
    forall i, j | 0 <= i <= j < |s|
      ensures AdvertisedEdge(a) <= AdvertisedEdge(s[i]) <= AdvertisedEdge(s[j])
    {
      if i >= n { assert s[i] == rest[i - n] && s[j] == rest[j - n]; }
      else if j >= n { assert s[j] == rest[j - n]; }
    }
  }

  lemma UnderThen(c: Connection, c': Connection, end: Connection, rest: seq<R.Receiver>)
    requires AllAdvertise(c, c') && AdvertisedUnder(c', end, rest)
    ensures AdvertisedUnder(c, end, seq(|c'.queue| - |c.queue|, _ => c'.receiver) + rest)
  {
    hide Advertises;
    var n := |c'.queue| - |c.queue|;
    var rcvs := seq(n, _ => c'.receiver) + rest;
    forall i | 0 <= i < |rcvs| ensures Advertises(end.queue[|c.queue| + i], rcvs[i]) {
      if i < n {
        assert end.queue[|c.queue| + i] == c'.queue[|c.queue| + i];
      } else {
        assert |c.queue| + i == |c'.queue| + (i - n);
        assert rcvs[i] == rest[i - n];
      }
    }
  }

  /**
   * Over every run, each segment queued that is no reset carries the window and the acknowledgment of its moment, and
   * the right edge these name together never retreats from one segment to a later one.
   */
  lemma {:induction false} AdvertisedEdgeNeverRetreats(c: Connection, events: seq<Event>)
    requires ConnInv(c)
    ensures AdvertisedUnder(c, RunEvents(c, events), QueuedUnder(c, events))
    ensures Advancing(c.receiver, QueuedUnder(c, events))
    decreases |events|
  {
    hide ConnInv, Apply, AdvertisedUnder, Advancing, AllAdvertise, AdvertisedEdge;
    if events == [] {
      NothingQueued(c);
    } else {
      var c' := Apply(c, events[0]);
      ApplyInv(c, events[0]);
      ApplyAdvertises(c, events[0]);
      EventMoves(c, events[0]);
      AdvertisedEdgeNeverRetreats(c', events[1..]);
      OnlyGrows(c, c');
      UnderThen(c, c', RunEvents(c, events), QueuedUnder(c', events[1..]));
      AdvancingThen(c.receiver, c'.receiver, |c'.queue| - |c.queue|, QueuedUnder(c', events[1..]));
      SameSplit(c'.receiver, |c'.queue| - |c.queue|, QueuedUnder(c', events[1..]));
    }
  }

  lemma SameSplit(rcv: R.Receiver, n: nat, rest: seq<R.Receiver>)
    ensures n == 0 ==> seq(n, _ => rcv) + rest == [] + rest
  {
  }

  lemma NothingQueued(c: Connection)
    ensures AdvertisedUnder(c, c, []) && Advancing(c.receiver, [])
  {
  }

  lemma OnlyGrows(c: Connection, c': Connection)
    requires AllAdvertise(c, c')
    ensures |c.queue| <= |c'.queue|
  {
  }

  // ---------------------------------------------------------------- when an answer is due

  /** A keep-alive: no sequence space, and a number one below what is wanted. */
  predicate KeepAlive(seg: TCPSegment, rcv: R.Receiver) {
    Length(seg) == 0 && rcv.isn.Some? && seg.header.seqno == Wrap(FirstWanted(rcv) - 1, rcv.isn.value)
  }

  predicate AllLong(segs: seq<TCPSegment>) { forall seg :: seg in segs ==> Length(seg) > 0 }

  /** What is sent in answer to a segment: at least something if an answer is due, and never an empty extra. */
  predicate AnswerShape(sent: seq<TCPSegment>, due: bool) {
    && (AllLong(sent) || (due && |sent| == 1 && Length(sent[0]) == 0))
    && (due ==> sent != [])
  }

  lemma PlannedIsLong(s: S.Sender)
    ensures AllLong(F.Planned(s))
  {
    DataIsLong(s, s.next);
    DataIsLong(s, s.next + 1);
  }

  lemma DataIsLong(s: S.Sender, from: nat)
    ensures AllLong(F.Data(s, from))
  {
    hide F.FinGoes, Wrap;
    var data := F.Data(s, from);
    forall i | 0 <= i < |data| ensures Length(data[i]) > 0 {
      PieceIsLong(s, from, i);
    }
  }

  lemma PieceIsLong(s: S.Sender, from: nat, i: nat)
    requires i < F.Pieces(s, from)
    ensures Length(F.Piece(s, from, i)) > 0
  {
    hide F.FinGoes, Wrap;
  }

  lemma FillIsLong(s: S.Sender)
    requires S.SenderInv(s) && AllLong(s.queue)
    ensures AllLong(S.FillWindow(s).queue)
  {
    hide F.Planned, Length, S.FillWindow, F.Numbered, F.Span;
    F.FillSends(s);
    PlannedIsLong(s);
  }

  lemma AckIsLong(s: S.Sender, ackno: U32, window: U16)
    requires S.SenderInv(s) && s.queue == []
    ensures AllLong(S.AckReceived(s, ackno, window).queue)
  {
    hide F.Planned, Length, S.SenderInv, S.AckReceived, F.Numbered, F.Span, F.UsesWindow;
    S.AckInv(s, ackno, window);
    if Unwrap(ackno, s.isn, s.ackno) <= s.next {
      F.AckExactly(s, ackno, window);
      PlannedIsLong(F.TakenIn(s, Unwrap(ackno, s.isn, s.ackno), window));
    }
  }

  /** What the receiver says is due is what the code tests. */
  lemma DueIsNeeded(rcv: R.Receiver, seg: TCPSegment)
    ensures NeedsAnswer(rcv, seg) <==> Length(seg) > 0 || KeepAlive(seg, rcv)
  {
    if rcv.isn.Some? { WrapOneBelow(FirstWanted(rcv), rcv.isn.value); }
  }

  lemma WrapOneBelow(n: nat, isn: U32)
    requires n > 0
    ensures Wrap(n - 1, isn) == (Wrap(n, isn) - 1) % TWO32
  {
    PredecessorWraps(n);
    PredecessorWraps(n % TWO32 + isn);
    if n % TWO32 == 0 { assert (TWO32 - 1 + isn) % TWO32 == (isn - 1) % TWO32; }
  }

  lemma PredecessorWraps(x: nat)
    ensures (x - 1) % TWO32 == if x % TWO32 == 0 then TWO32 - 1 else x % TWO32 - 1
  {
    var q := x / TWO32;
    assert x == q * TWO32 + x % TWO32;
  }

  lemma AnswerIsShaped(s: S.Sender)
    requires S.SenderInv(s) && AllLong(s.queue)
    ensures AnswerShape(Answer(s).queue, true)
  {
    hide S.SenderInv, S.FillWindow;
    FillIsLong(s);
  }

  lemma StampKeepsShape(rcv: R.Receiver, segs: seq<TCPSegment>, due: bool)
    requires AnswerShape(segs, due)
    ensures AnswerShape(StampAll(rcv, segs), due)
  {
    hide Length;
    var out := StampAll(rcv, segs);
    forall i | 0 <= i < |segs| ensures Length(out[i]) == Length(segs[i]) && segs[i] in segs {
      SameLength(rcv, segs[i]);
    }
  }

  lemma SameLength(rcv: R.Receiver, seg: TCPSegment)
    ensures Length(Stamp(rcv, seg)) == Length(seg)
  {
  }

  /**
   * An active endpoint answers whatever occupies sequence space, and keep-alives; and it never sends an empty segment
   * otherwise, so acknowledgments are not acknowledged. An empty answer goes only where nothing else does.
   */
  lemma AnswersExactly(c: Connection, seg: TCPSegment)
    requires ConnInv(c) && c.active && !seg.header.rst
    ensures var c' := Apply(c, Deliver(seg));
      && c.queue <= c'.queue
      && AnswerShape(c'.queue[|c.queue|..], Length(seg) > 0 || KeepAlive(seg, c'.receiver))
  {
    hide S.SenderInv, S.AckReceived, Answer, R.Receive, R.ReceiverInv, MaximallyFilled, S.Extends, NeedsAnswer;
    hide KeepAlive, AnswerShape, Length;
    var rcv := R.Receive(c.receiver, seg);
    var acked := if seg.header.ack then S.AckReceived(c.sender, seg.header.ackno, seg.header.win) else c.sender;
    KnownSender(c);
    S.AckInv(c.sender, seg.header.ackno, seg.header.win);
    AckIsLong(c.sender, seg.header.ackno, seg.header.win);
    DueIsNeeded(rcv, seg);
    AnswerIsShaped(acked);
    LongIsShaped(acked.queue);
    var segs := BeforePush(c, seg).sender.queue;
    StampKeepsShape(rcv, segs, NeedsAnswer(rcv, seg));
    var c' := Apply(c, Deliver(seg));
    assert c'.queue == c.queue + StampAll(rcv, segs);
    assert c'.queue[|c.queue|..] == StampAll(rcv, segs);
  }

  lemma LongIsShaped(segs: seq<TCPSegment>)
    ensures AllLong(segs) ==> AnswerShape(segs, false)
  {
  }
}
