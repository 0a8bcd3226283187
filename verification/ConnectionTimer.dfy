/**
 * The retransmission timer over whole runs of a connection (tcp_connection.cc, tcp_sender.cc; section 5 of RFC 6298):
 * when the limit on retransmissions is a limit, and what the timeout then is.
 */
module ConnectionTimer {
  import opened Words
  import opened TCPConfig
  import opened TCPSegments
  import opened Connecting
  import R = Receiving
  import S = Sending
  import T = RetransmissionTimer

  // ---------------------------------------------------------------- the limit

  /** An active connection has not retransmitted more often than it may. */
  ghost predicate Capped(c: Connection) {
    ConnInv(c) && (c.active ==> c.sender.retx <= MAX_RETX_ATTEMPTS)
  }

  /** Connecting again after giving up: `connect` makes the connection active without looking at the counter. */
  predicate Revives(c: Connection, e: Event) {
    e.ConnectEvent? && c.sender.retx > MAX_RETX_ATTEMPTS
  }

  /** Every call keeps an active connection within the limit, except exactly `connect` on one that has given up. */
  lemma CappedIffNotRevived(c: Connection, e: Event)
    requires Capped(c)
    ensures Capped(Apply(c, e)) <==> !Revives(c, e)
  {
    hide S.SenderInv, R.ReceiverInv, MaximallyFilled, SegmentReceived, S.FillWindow;
    ApplyInv(c, e);
    match e
    case Deliver(seg) => DeliverKeepsLimit(c, seg);
    case WriteEvent(data) => FillKeepsCounter(S.WriteStream(c.sender, data), c.sender, data);
    case EndEvent => FillKeepsCounter(S.EndStream(c.sender), c.sender, []);
    case ConnectEvent => FillKeepsCounter(c.sender, c.sender, []);
    case TickEvent(ms) =>
    case ReadEvent(len) =>
  }

  lemma FillKeepsCounter(s: S.Sender, before: S.Sender, data: seq<Byte>)
    requires S.SenderInv(before) && (s == before || s == S.WriteStream(before, data) || s == S.EndStream(before))
    ensures S.FillWindow(s).retx == before.retx
  {
    hide S.SenderInv, S.FillWindow;
    S.StreamInv(before, data);
    FilledInv(s);
  }

  lemma DeliverKeepsLimit(c: Connection, seg: TCPSegment)
    requires ConnInv(c)
    ensures SegmentReceived(c, seg).active ==> c.active && SegmentReceived(c, seg).sender.retx <= c.sender.retx
    ensures !c.active ==> SegmentReceived(c, seg) == c
  {
    hide S.SenderInv, S.FillWindow, S.AckReceived, Answer, R.Receive, R.ReceiverInv, MaximallyFilled;
    if c.active && !seg.header.rst {
      KnownSender(c);
      S.AckInv(c.sender, seg.header.ackno, seg.header.win);
      AnswerInv(if seg.header.ack then S.AckReceived(c.sender, seg.header.ackno, seg.header.win) else c.sender);
    }
  }

  ghost predicate AlwaysCapped(c: Connection, events: seq<Event>)
    decreases |events|
  {
    Capped(c) && (events != [] ==> AlwaysCapped(Apply(c, events[0]), events[1..]))
  }

  ghost predicate NeverRevived(c: Connection, events: seq<Event>)
    decreases |events|
  {
    events != [] ==> !Revives(c, events[0]) && NeverRevived(Apply(c, events[0]), events[1..])
  }

  /** Over every run of a new connection, it stays within the limit throughout if and only if it is never revived. */
  lemma LimitHoldsIff(recvCapacity: nat, sendCapacity: nat, rtTimeout: U16, isn: U32, events: seq<Event>)
    ensures var c := NewConnection(recvCapacity, sendCapacity, rtTimeout, isn);
            AlwaysCapped(c, events) <==> NeverRevived(c, events)
  {
    NewConnInv(recvCapacity, sendCapacity, rtTimeout, isn);
    CappedRun(NewConnection(recvCapacity, sendCapacity, rtTimeout, isn), events);
  }

  lemma {:induction false} CappedRun(c: Connection, events: seq<Event>)
    requires Capped(c)
    ensures AlwaysCapped(c, events) <==> NeverRevived(c, events)
    decreases |events|
  {
    hide Capped, Apply, Revives;
    if events != [] {
      CappedIffNotRevived(c, events[0]);
      if !Revives(c, events[0]) { CappedRun(Apply(c, events[0]), events[1..]); }
    }
  }

  /** The limit is really passed: a connection that gives up and is connected again is active beyond it. */
  lemma ReconnectRevives(c: Connection, ms: nat)
    requires ConnInv(c) && c.active && Tick(c, ms).sender.retx > MAX_RETX_ATTEMPTS
    ensures var revived := Apply(Tick(c, ms), ConnectEvent);
            !Tick(c, ms).active && revived.active && revived.sender.retx > MAX_RETX_ATTEMPTS
  {
    hide S.SenderInv, S.FillWindow;
    TickInv(c, ms);
    FilledInv(Tick(c, ms).sender);
  }

  // ---------------------------------------------------------------- the timer

  /** A connection with a clock: the milliseconds and the retransmissions by kind since the timer last started over. */
  datatype Clocked = Clocked(c: Connection, elapsed: nat, doublings: nat, zeroWindow: nat)

  /** The timer starts over when an acknowledgment takes segments away, and on the first send after all were. */
  ghost predicate Restarts(c: Connection, e: Event) {
    || (&& e.Deliver? && c.active && !e.seg.header.rst && e.seg.header.ack
        && T.AcksSomething(c.sender, e.seg.header.ackno))
    || (c.sender.outstanding == map[] && Apply(c, e).sender.outstanding != map[])
  }

  ghost function After(t: Clocked, e: Event): Clocked {
    var c := Apply(t.c, e);
    if Restarts(t.c, e) then Clocked(c, 0, 0, 0)
    else if !(e.TickEvent? && t.c.active && t.c.sender.running) then t.(c := c)
    else if !S.Expires(t.c.sender, e.ms) then t.(c := c, elapsed := t.elapsed + e.ms)
    else if t.c.sender.window > 0 then Clocked(c, t.elapsed + e.ms, t.doublings + 1, t.zeroWindow)
    else Clocked(c, t.elapsed + e.ms, t.doublings, t.zeroWindow + 1)
  }

  ghost function RunClock(t: Clocked, events: seq<Event>): Clocked
    decreases |events|
  {
    if events == [] then t else RunClock(After(t, events[0]), events[1..])
  }

  function TimedOf(t: Clocked): T.Timed { T.Timed(t.c.sender, t.elapsed, t.doublings, t.zeroWindow) }

  predicate SameTimer(s: S.Sender, s': S.Sender) {
    s'.timer == s.timer && s'.rto == s.rto && s'.retx == s.retx && s'.initialRto == s.initialRto
  }

  predicate NewTimer(s: S.Sender) { s.timer == 0 && s.rto == s.initialRto && s.retx == 0 }

  /** What filling does to the timer. */
  lemma FillTimer(s: S.Sender)
    requires S.SenderInv(s)
    ensures var f := S.FillWindow(s);
            && f.initialRto == s.initialRto && (s.outstanding != map[] ==> f.outstanding != map[])
            && if s.outstanding == map[] && f.outstanding != map[] then NewTimer(f) else SameTimer(s, f)
  {
    hide S.FillWindow;
    S.FillInv(s);
    T.IdleTimer(s);
  }

  lemma AnswerTimer(s: S.Sender)
    requires S.SenderInv(s)
    ensures var a := Answer(s);
            && a.initialRto == s.initialRto && (s.outstanding != map[] ==> a.outstanding != map[])
            && if s.outstanding == map[] && a.outstanding != map[] then NewTimer(a) else SameTimer(s, a)
  {
    hide S.FillWindow, S.SenderInv;
    FillTimer(s);
  }

  /** What a delivered segment does to the timer. */
  lemma DeliverTimer(c: Connection, seg: TCPSegment)
    requires ConnInv(c)
    ensures var s' := SegmentReceived(c, seg).sender;
            && s'.initialRto == c.sender.initialRto
            && if Restarts(c, Deliver(seg)) then NewTimer(s') else SameTimer(c.sender, s')
  {
    hide S.FillWindow, S.SenderInv, S.AckReceived, Answer, R.Receive, R.ReceiverInv, MaximallyFilled, T.AcksSomething;
    if c.active && !seg.header.rst {
      KnownSender(c);
      S.AckInv(c.sender, seg.header.ackno, seg.header.win);
      T.AckTimer(c.sender, seg.header.ackno, seg.header.win);
      T.IdleTimer(c.sender);
      var acked := if seg.header.ack then S.AckReceived(c.sender, seg.header.ackno, seg.header.win) else c.sender;
      AnswerTimer(acked);
    }
  }

  lemma FillEventTimer(c: Connection, s: S.Sender, data: seq<Byte>)
    requires ConnInv(c) && (s == c.sender || s == S.WriteStream(c.sender, data) || s == S.EndStream(c.sender))
    ensures var f := S.FillWindow(s);
            && f.initialRto == c.sender.initialRto
            && if c.sender.outstanding == map[] && f.outstanding != map[] then NewTimer(f) else SameTimer(c.sender, f)
  {
    hide S.FillWindow, S.SenderInv;
    S.StreamInv(c.sender, data);
    FillTimer(s);
  }

  /** Outside an active tick, an event leaves the timer alone or starts it over. */
  lemma EventTimer(c: Connection, e: Event)
    requires ConnInv(c) && !(e.TickEvent? && c.active)
    ensures var s' := Apply(c, e).sender;
            && s'.initialRto == c.sender.initialRto
            && if Restarts(c, e) then NewTimer(s') else SameTimer(c.sender, s')
  {
    hide S.FillWindow, S.SenderInv, SegmentReceived, R.ReceiverInv, MaximallyFilled, T.AcksSomething;
    match e
    case Deliver(seg) => DeliverTimer(c, seg);
    case WriteEvent(data) => if c.active { FillEventTimer(c, S.WriteStream(c.sender, data), data); }
    case EndEvent => FillEventTimer(c, S.EndStream(c.sender), []);
    case ConnectEvent => FillEventTimer(c, c.sender, []);
    case TickEvent(ms) =>
    case ReadEvent(len) =>
  }

  /** An active tick does to the timer what the sender's tick does. */
  lemma TickTimer(c: Connection, ms: nat)
    requires c.active
    ensures SameTimer(S.Tick(c.sender, ms), Tick(c, ms).sender)
    ensures Tick(c, ms).sender.outstanding == c.sender.outstanding
  {
    hide S.Tick, S.InFlight, StampAll;
    TickTracksSame(c.sender, ms);
  }

  lemma TickTracksSame(s: S.Sender, ms: nat)
    ensures S.Tick(s, ms).outstanding == s.outstanding && |S.Tick(s, ms).queue| <= |s.queue| + 1
  {
  }

  lemma AfterKeeps(t: Clocked, e: Event)
    requires ConnInv(t.c) && T.Backoff(TimedOf(t))
    ensures ConnInv(After(t, e).c) && T.Backoff(TimedOf(After(t, e)))
    ensures After(t, e).c.sender.initialRto == t.c.sender.initialRto
  {
    hide ConnInv, T.Backoff, Tick, SegmentReceived, S.FillWindow, Restarts;
    ApplyInv(t.c, e);
    if e.TickEvent? && t.c.active {
      TickTimer(t.c, e.ms);
      NoRestart(t.c, e.ms);
      T.TickBackoff(TimedOf(t), e.ms);
      var ticked := T.ApplyCall(TimedOf(t), T.TickCall(e.ms));
      T.SameTimer(ticked, Apply(t.c, e).sender);
    } else {
      EventTimer(t.c, e);
      if Restarts(t.c, e) {
        T.StartsOver(Apply(t.c, e).sender);
      } else {
        T.SameTimer(TimedOf(t), Apply(t.c, e).sender);
      }
    }
  }

  lemma NoRestart(c: Connection, ms: nat)
    requires c.active
    ensures !Restarts(c, TickEvent(ms))
  {
    hide Tick;
    TickTimer(c, ms);
  }

  lemma {:induction false} ClockKeeps(t: Clocked, events: seq<Event>)
    requires ConnInv(t.c) && T.Backoff(TimedOf(t))
    ensures var end := RunClock(t, events);
            ConnInv(end.c) && T.Backoff(TimedOf(end)) && end.c.sender.initialRto == t.c.sender.initialRto
    decreases |events|
  {
    hide ConnInv, T.Backoff, After;
    if events != [] {
      AfterKeeps(t, events[0]);
      ClockKeeps(After(t, events[0]), events[1..]);
    }
  }

  function NewClocked(recvCapacity: nat, sendCapacity: nat, rtTimeout: U16, isn: U32): Clocked {
    Clocked(NewConnection(recvCapacity, sendCapacity, rtTimeout, isn), 0, 0, 0)
  }

  /** What the timer of a connection says about the time that has passed. */
  ghost predicate TimeoutIs(t: Clocked, rtTimeout: U16) {
    && (t.c.sender.running <==> t.c.sender.outstanding != map[])
    && (t.doublings + t.zeroWindow) % TWO32 == t.c.sender.retx
    && t.c.sender.rto == rtTimeout * Pow2(t.doublings) % TWO32
    && (rtTimeout * Pow2(t.doublings) < TWO32 ==> (Pow2(t.doublings) - 1) * rtTimeout <= t.elapsed)
  }

  /** Over every run of a new connection, revived or not. */
  lemma ConnectionBacksOff(recvCapacity: nat, sendCapacity: nat, rtTimeout: U16, isn: U32, events: seq<Event>)
    ensures TimeoutIs(RunClock(NewClocked(recvCapacity, sendCapacity, rtTimeout, isn), events), rtTimeout)
  {
    hide ConnInv, After, S.CoreInv, S.Tiled;
    var start := NewClocked(recvCapacity, sendCapacity, rtTimeout, isn);
    NewConnInv(recvCapacity, sendCapacity, rtTimeout, isn);
    T.StartsOver(start.c.sender);
    ClockKeeps(start, events);
    var t := RunClock(start, events);
    KnownSender(t.c);
    T.KnownTimer(t.c.sender);
    T.MulMinusOne(Pow2(t.doublings), rtTimeout);
  }

  // ---------------------------------------------------------------- within the limit

  /** The counters are exact, and at most one retransmission beyond the limit was made before giving up. */
  ghost predicate Counted(t: Clocked) {
    Capped(t.c) && t.doublings + t.zeroWindow == t.c.sender.retx <= MAX_RETX_ATTEMPTS + 1
  }

  lemma AfterCounts(t: Clocked, e: Event)
    requires Counted(t) && !Revives(t.c, e)
    ensures Counted(After(t, e))
  {
    hide ConnInv, Tick, SegmentReceived, S.FillWindow, Restarts;
    CappedIffNotRevived(t.c, e);
    if e.TickEvent? && t.c.active {
      TickTimer(t.c, e.ms);
      NoRestart(t.c, e.ms);
    } else {
      EventTimer(t.c, e);
    }
  }

  lemma {:induction false} RunCounts(t: Clocked, events: seq<Event>)
    requires Counted(t) && NeverRevived(t.c, events)
    ensures Counted(RunClock(t, events))
    decreases |events|
  {
    hide Counted, Revives;
    if events != [] {
      AfterCounts(t, events[0]);
      RunCounts(After(t, events[0]), events[1..]);
    }
  }

  /**
   * Over every run in which a connection that gave up is not connected again: it retransmits at most 8 times while
   * active and 9 times in all, the timeout never leaves 32 bits, and it is the initial one doubled once for every
   * retransmission into an open window, for which at least (2^doublings - 1) times the initial timeout has passed.
   */
  lemma TimeoutNeverOverflows(recvCapacity: nat, sendCapacity: nat, rtTimeout: U16, isn: U32, events: seq<Event>)
    requires NeverRevived(NewConnection(recvCapacity, sendCapacity, rtTimeout, isn), events)
    ensures var t := RunClock(NewClocked(recvCapacity, sendCapacity, rtTimeout, isn), events);
            && t.doublings + t.zeroWindow == t.c.sender.retx <= 9
            && (t.c.active ==> t.c.sender.retx <= 8)
            && t.c.sender.rto == rtTimeout * Pow2(t.doublings) < 0x1_0000_0000
            && (Pow2(t.doublings) - 1) * rtTimeout <= t.elapsed
  {
    hide ConnInv, RunClock, NeverRevived;
    NewConnInv(recvCapacity, sendCapacity, rtTimeout, isn);
    var start := NewClocked(recvCapacity, sendCapacity, rtTimeout, isn);
    RunCounts(start, events);
    ConnectionBacksOff(recvCapacity, sendCapacity, rtTimeout, isn, events);
    var t := RunClock(start, events);
    T.TimeoutFits(rtTimeout, t.doublings);
  }

  // ---------------------------------------------------------------- beyond the limit

  /** The SYN is out, unanswered, and has been resent `j` times. */
  ghost predicate Unanswered(c: Connection, j: nat) {
    c.active && !c.receiver.reasm.out.ended && SynAlone(c.sender, j)
  }

  /** Tick once for the timeout, and connect again. */
  ghost function Again(c: Connection): Connection {
    Apply(Apply(c, TickEvent(c.sender.rto)), ConnectEvent)
  }

  /** The sender's part of `Unanswered`, which connecting leaves alone. */
  ghost predicate SynAlone(s: S.Sender, j: nat) {
    && s.synSent && s.running && s.timer == 0 && s.window == 1 && s.next == 1 && s.ackno == 0
    && s.outstanding.Keys == {0} && s.retx == j && s.rto == 0x8000 * Pow2(j) % TWO32
  }

  lemma TickResendsSyn(s: S.Sender, j: nat)
    requires SynAlone(s, j) && j < 17
    ensures SynAlone(S.Tick(s, s.rto), j + 1)
  {
    hide Pow2;
    assert 0 in s.outstanding;
    assert S.Expires(s, s.rto);
    T.DoubledTimeout(0x8000, j);
    T.DoubledWord(0x8000 * Pow2(j));
  }

  /** Whether the tick gives up or not, only queues and error flags differ from what the sender's own tick does. */
  lemma TickKeepsSyn(c: Connection, ms: nat, j: nat)
    requires c.active && SynAlone(S.Tick(c.sender, ms), j)
    ensures SynAlone(Tick(c, ms).sender, j)
    ensures Tick(c, ms).receiver.reasm.out.ended == c.receiver.reasm.out.ended
  {
    hide S.Tick, S.InFlight, StampAll, ResetSegment, Pow2;
  }

  lemma ConnectKeepsSyn(c: Connection, j: nat)
    requires SynAlone(c.sender, j) && !c.receiver.reasm.out.ended
    ensures Unanswered(Connect(c), j)
  {
    hide Pow2;
    assert S.NextSegment(c.sender) == None;
  }

  lemma AgainResends(c: Connection, j: nat)
    requires Unanswered(c, j) && j < 17
    ensures Unanswered(Again(c), j + 1)
  {
    hide S.Tick, Tick, Connect;
    TickResendsSyn(c.sender, j);
    TickKeepsSyn(c, c.sender.rto, j + 1);
    ConnectKeepsSyn(Tick(c, c.sender.rto), j + 1);
  }

  ghost function AgainTimes(c: Connection, n: nat): Connection {
    if n == 0 then c else Again(AgainTimes(c, n - 1))
  }

  lemma {:induction false} ResendsFollow(c: Connection, n: nat)
    requires Unanswered(c, 0) && n <= 17
    ensures Unanswered(AgainTimes(c, n), n)
  {
    hide Unanswered, Again;
    if n > 0 {
      ResendsFollow(c, n - 1);
      AgainResends(AgainTimes(c, n - 1), n - 1);
    }
  }

  lemma FirstConnect(recvCapacity: nat, sendCapacity: nat, isn: U32)
    ensures Unanswered(Apply(NewConnection(recvCapacity, sendCapacity, 0x8000, isn), ConnectEvent), 0)
  {
    var s := NewConnection(recvCapacity, sendCapacity, 0x8000, isn).sender;
    var seg := TCPSegment(S.HeaderAt(s).(syn := true), []);
    assert S.NextSegment(s) == Some(seg);
    assert S.NextSegment(S.Send(s, seg)) == None;
    assert S.FillWindow(S.Send(s, seg)) == S.Send(s, seg);
    assert S.FillWindow(s) == S.Send(s, seg);
    assert Pow2(0) == 1;
  }

  /**
   * Why the limit matters: with an initial timeout of 32768 ms and a peer that never answers, a connection that is
   * connected again each time it gives up is active after 17 retransmissions, and its 32-bit timeout has wrapped to
   * zero.
   */
  lemma RevivedTimeoutOverflows(recvCapacity: nat, sendCapacity: nat, isn: U32)
    ensures var start := Apply(NewConnection(recvCapacity, sendCapacity, 0x8000, isn), ConnectEvent);
            var end := AgainTimes(start, 17);
            end.active && end.sender.retx == 17 && end.sender.rto == 0
  {
    hide Again, AgainTimes;
    var start := Apply(NewConnection(recvCapacity, sendCapacity, 0x8000, isn), ConnectEvent);
    FirstConnect(recvCapacity, sendCapacity, isn);
    ResendsFollow(start, 17);
    assert Pow2(17) == 0x2_0000 by { assert Pow2(8) == 0x100; }
  }
}
