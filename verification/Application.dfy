/**
 * An endpoint as its application sees it (tcp_connection.cc, byte_stream.cc): what is written to it is what it has to
 * send, what is read from it is what it has received, and nothing else moves either stream.
 */
module Applications {
  import opened Words
  import opened ByteStreams
  import opened TCPSegments
  import opened Connecting
  import R = Receiving
  import S = Sending
  import Reassembly

  /** How many of `n` bytes `write` takes: none if the endpoint is inactive, or its stream has ended or failed. */
  function Taken(c: Connection, n: nat): nat {
    var out := c.sender.stream;
    if !c.active || out.ended || out.error then 0 else Min(n, out.capacity - (|out.all| - out.read))
  }

  /** What a call adds to the outbound stream. */
  function WrittenBy(c: Connection, e: Event): seq<Byte> {
    if e.WriteEvent? then e.data[..Taken(c, |e.data|)] else []
  }

  /** What a call reads from the inbound stream: as much as is asked for and buffered, from the front. */
  function ReadBy(c: Connection, e: Event): seq<Byte> {
    var out := c.receiver.reasm.out;
    if e.ReadEvent? then out.all[out.read..out.read + Min(e.len, |out.all| - out.read)] else []
  }

  /** A reset breaks the connection off: one that arrives, or one that is sent on giving up. */
  ghost predicate BreaksOff(c: Connection, e: Event) {
    c.active && ((e.Deliver? && e.seg.header.rst) || (e.TickEvent? && Tick(c, e.ms).sender.retx > 8))
  }

  // ---------------------------------------------------------------- the outbound stream

  ghost predicate Moves(s: Stream, s': Stream, more: seq<Byte>, end: bool, fail: bool) {
    && s'.all == s.all + more && s.read <= s'.read && s'.capacity == s.capacity
    && s'.ended == (s.ended || end) && s'.error == (s.error || fail)
  }

  lemma FillMoves(s: S.Sender, before: Stream, more: seq<Byte>, end: bool)
    requires S.SenderInv(s) && Moves(before, s.stream, more, end, false)
    ensures Moves(before, S.FillWindow(s).stream, more, end, false)
  {
    hide S.CoreInv, S.FillWindow, S.NextSegment;
    S.FillInv(s);
    ReadAdvances(s, S.FillWindow(s));
  }

  lemma ReadAdvances(s: S.Sender, f: S.Sender)
    requires S.Extends(s, f)
    ensures s.stream.read <= f.stream.read
  {
  }

  lemma DeliverMoves(c: Connection, seg: TCPSegment)
    requires ConnInv(c)
    ensures Moves(c.sender.stream, SegmentReceived(c, seg).sender.stream, [], false, c.active && seg.header.rst)
  {
    hide S.SenderInv, R.ReceiverInv, MaximallyFilled, StampAll, S.AckReceived, Answer, R.Receive, S.Extends;
    hide NeedsAnswer, S.NextSegment;
    KnownSender(c);
    S.AckInv(c.sender, seg.header.ackno, seg.header.win);
    var acked := if seg.header.ack then S.AckReceived(c.sender, seg.header.ackno, seg.header.win) else c.sender;
    S.ExtendsReflexive(c.sender);
    ReadAdvances(c.sender, acked);
    AnswerMoves(acked);
  }

  lemma AnswerMoves(s: S.Sender)
    requires S.SenderInv(s)
    ensures Moves(s.stream, Answer(s).stream, [], false, false)
  {
    hide S.SenderInv, S.FillWindow;
    FillMoves(s, s.stream, [], false);
  }

  lemma TickMoves(c: Connection, ms: nat)
    ensures Moves(c.sender.stream, Tick(c, ms).sender.stream, [], false, BreaksOff(c, TickEvent(ms)))
  {
    hide S.Tick, S.InFlight, StampAll, UncleanShutdown;
    TickKeepsStream(c.sender, ms);
    if c.active {
      ShutdownFails(c.(since := c.since + ms, sender := S.Tick(c.sender, ms)));
    }
  }

  /** Only the error flag of the outbound stream moves, and no counter of the timer. */
  lemma ShutdownFails(c: Connection)
    ensures var s := UncleanShutdown(c, true).sender;
      s.stream == c.sender.stream.(error := true) && s.retx == c.sender.retx
  {
    hide ResetSegment;
  }

  lemma TickKeepsStream(s: S.Sender, ms: nat)
    ensures S.Tick(s, ms).stream == s.stream
  {
  }

  lemma WriteMoves(c: Connection, data: seq<Byte>)
    requires ConnInv(c)
    ensures Moves(c.sender.stream, WriteData(c, data).sender.stream, data[..Taken(c, |data|)], false, false)
  {
    hide S.SenderInv, S.FillWindow, StampAll, R.ReceiverInv, MaximallyFilled;
    KnownSender(c);
    S.StreamInv(c.sender, data);
    if c.active {
      FillMoves(S.WriteStream(c.sender, data), c.sender.stream, data[..Taken(c, |data|)], false);
    }
  }

  /**
   * Exactly what a call does to the outbound stream: `write` appends the bytes it takes, `end_input_stream` ends it,
   * a reset fails it, and no call does anything else to it but send from it.
   */
  lemma WritesExactly(c: Connection, e: Event)
    requires ConnInv(c)
    ensures Moves(c.sender.stream, Apply(c, e).sender.stream, WrittenBy(c, e), e.EndEvent?, BreaksOff(c, e))
  {
    hide S.SenderInv, S.FillWindow, StampAll, R.ReceiverInv, MaximallyFilled, SegmentReceived, Tick, WriteData;
    KnownSender(c);
    match e
    case Deliver(seg) => DeliverMoves(c, seg);
    case WriteEvent(data) => WriteMoves(c, data);
    case EndEvent =>
      S.StreamInv(c.sender, []);
      FillMoves(S.EndStream(c.sender), c.sender.stream, [], true);
    case ConnectEvent => FillMoves(c.sender, c.sender.stream, [], false);
    case TickEvent(ms) => TickMoves(c, ms);
    case ReadEvent(len) =>
  }

  // ---------------------------------------------------------------- the inbound stream

  /** What reading returns is the next of what was assembled, and nothing assembled is ever taken back. */
  lemma ReadsExactly(c: Connection, e: Event)
    requires ConnInv(c)
    ensures var out, out' := c.receiver.reasm.out, Apply(c, e).receiver.reasm.out;
      && out.all <= out'.all && out'.all[..out'.read] == out.all[..out.read] + ReadBy(c, e)
      && out'.capacity == out.capacity
  {
    hide S.SenderInv, MaximallyFilled, Apply, R.Receive;
    ApplyReceiver(c, e);
    if e.Deliver? { ReceiveKeepsRead(c.receiver, e.seg); }
  }

  lemma ReceiveKeepsRead(rcv: R.Receiver, seg: TCPSegment)
    ensures var out, out' := rcv.reasm.out, R.Receive(rcv, seg).reasm.out;
      out.all <= out'.all && out'.read == out.read && out'.capacity == out.capacity
  {
    hide Reassembly.Push;
    var isn := if rcv.isn.None? then seg.header.seqno else rcv.isn.value;
    var index := R.StreamIndex(R.AbsoluteSeqno(rcv, isn, seg), seg.header.syn);
    Reassembly.PushAppends(rcv.reasm, seg.payload, index, seg.header.fin);
    Reassembly.PushKeepsMarks(rcv.reasm, seg.payload, index, seg.header.fin);
  }

  /** Over every run each stream keeps the capacity it was made with, and never holds more. */
  lemma {:induction false} RunKeepsCapacity(c: Connection, events: seq<Event>)
    requires ConnInv(c)
    ensures ConnInv(RunEvents(c, events))
    ensures var s, s' := c.sender.stream, RunEvents(c, events).sender.stream; s'.capacity == s.capacity
    ensures var s, s' := c.receiver.reasm.out, RunEvents(c, events).receiver.reasm.out; s'.capacity == s.capacity
    decreases |events|
  {
    hide ConnInv, Apply, BreaksOff;
    if events != [] {
      ApplyInv(c, events[0]);
      WritesExactly(c, events[0]);
      ReadsExactly(c, events[0]);
      RunKeepsCapacity(Apply(c, events[0]), events[1..]);
    }
  }

  /** The two capacities a connection is made with bound what it holds, each in its own direction, over every run. */
  lemma CapacitiesHold(recvCapacity: nat, sendCapacity: nat, rtTimeout: U16, isn: U32, events: seq<Event>)
    ensures var c := RunEvents(NewConnection(recvCapacity, sendCapacity, rtTimeout, isn), events);
      var sent, got := c.sender.stream, c.receiver.reasm.out;
      && sent.capacity == sendCapacity && |sent.all| - sent.read <= sendCapacity
      && got.capacity == recvCapacity && |got.all| - got.read <= recvCapacity
  {
    hide ConnInv, RunEvents;
    NewConnInv(recvCapacity, sendCapacity, rtTimeout, isn);
    RunKeepsCapacity(NewConnection(recvCapacity, sendCapacity, rtTimeout, isn), events);
  }
}
