/** The official connection states read off an endpoint's counters (tcp_state.hh, tcp_state.cc). */
module TCPStates {
  import opened ByteStreams
  import opened TCPConfig
  import opened Connecting
  import R = Receiving
  import S = Sending
  import Reassembly

  datatype SenderSummary = SenderError | SenderClosed | SynSent | SynAcked | FinSent | FinAcked

  datatype ReceiverSummary = ReceiverError | ReceiverListen | SynRecv | FinRecv

  datatype TCPState = TCPState(sender: SenderSummary, receiver: ReceiverSummary, active: bool, linger: bool)

  datatype State =
    | LISTEN | SYN_RCVD | SYN_SENT | ESTABLISHED | CLOSE_WAIT | LAST_ACK
    | FIN_WAIT_1 | FIN_WAIT_2 | CLOSING | TIME_WAIT | CLOSED | RESET

  function Official(state: State): TCPState {
    match state
    case LISTEN => TCPState(SenderClosed, ReceiverListen, true, true)
    case SYN_RCVD => TCPState(SynSent, SynRecv, true, true)
    case SYN_SENT => TCPState(SynSent, ReceiverListen, true, true)
    case ESTABLISHED => TCPState(SynAcked, SynRecv, true, true)
    case CLOSE_WAIT => TCPState(SynAcked, FinRecv, true, false)
    case LAST_ACK => TCPState(FinSent, FinRecv, true, false)
    case CLOSING => TCPState(FinSent, FinRecv, true, true)
    case FIN_WAIT_1 => TCPState(FinSent, SynRecv, true, true)
    case FIN_WAIT_2 => TCPState(FinAcked, SynRecv, true, true)
    case TIME_WAIT => TCPState(FinAcked, FinRecv, true, true)
    case RESET => TCPState(SenderError, ReceiverError, false, false)
    case CLOSED => TCPState(FinAcked, FinRecv, false, false)
  }

  ghost function SummarizeSender(s: S.Sender): SenderSummary {
    if s.stream.error then SenderError
    else if s.next == 0 then SenderClosed
    else if s.next == S.InFlight(s.outstanding) then SynSent
    else if !Eof(s.stream) then SynAcked
    else if s.next < |s.stream.all| + 2 then SynAcked
    else if S.InFlight(s.outstanding) > 0 then FinSent
    else FinAcked
  }

  function SummarizeReceiver(r: R.Receiver): ReceiverSummary {
    if r.reasm.out.error then ReceiverError
    else if R.AckNo(r).None? then ReceiverListen
    else if r.reasm.out.ended then FinRecv
    else SynRecv
  }

  ghost function StateOf(c: Connection): TCPState {
    TCPState(SummarizeSender(c.sender), SummarizeReceiver(c.receiver), c.active, c.active && c.linger)
  }

  /** The summary's comparisons of counters say what the names say about the SYN and FIN flags. */
  lemma SummaryIsExact(s: S.Sender)
    requires S.SenderInv(s) && !s.stream.error
    ensures SummarizeSender(s) == SenderClosed <==> !s.synSent
    ensures SummarizeSender(s) == SynSent <==> s.synSent && s.ackno == 0
    ensures SummarizeSender(s) == FinSent <==> s.ackno > 0 && s.finSent && s.ackno < s.next
    ensures SummarizeSender(s) == FinAcked <==> s.finSent && s.ackno == s.next
    ensures SummarizeSender(s) == SynAcked <==> s.ackno > 0 && !s.finSent
  {
    S.BytesInFlight(s);
    OldestIsSyn(s);
  }

  /** Nothing is acknowledged exactly while the SYN is the oldest outstanding segment. */
  lemma OldestIsSyn(s: S.Sender)
    requires S.SenderInv(s)
    ensures s.synSent ==> (s.ackno == 0 <==> S.Oldest(s) == 0)
  {
    if s.synSent && S.Oldest(s) == 0 {
      assert S.Carries(s.outstanding[0], 0, s);
    }
  }

  /**
   * A clean close is the official state CLOSED exactly if the outbound stream has not failed (and was revived)
   * before.
   */
  lemma CleanCloseIsClosed(c: Connection, ms: nat)
    requires ConnInv(c) && c.active && !Tick(c, ms).active && Tick(c, ms).sender.retx <= MAX_RETX_ATTEMPTS
    ensures StateOf(Tick(c, ms)) == Official(CLOSED) <==> !c.sender.stream.error
  {
    hide S.SenderInv, R.ReceiverInv, MaximallyFilled, Tick, SummarizeSender;
    CleanClose(c, ms);
    TickInv(c, ms);
    KnownSender(Tick(c, ms));
    SameError(c, ms);
    NamesError(Tick(c, ms).sender);
    if !c.sender.stream.error { SummaryIsExact(Tick(c, ms).sender); }
  }

  lemma SameError(c: Connection, ms: nat)
    requires ConnInv(c) && c.active && Tick(c, ms).sender.retx <= MAX_RETX_ATTEMPTS
    ensures Tick(c, ms).sender.stream.error == c.sender.stream.error
  {
    hide S.SenderInv, R.ReceiverInv, MaximallyFilled;
  }

  lemma NamesError(s: S.Sender)
    ensures SummarizeSender(s) == SenderError <==> s.stream.error
  {
  }

  /** A shutdown by reset, received or sent, is the official state RESET. */
  lemma ShutdownIsReset(c: Connection, sendRst: bool)
    ensures StateOf(UncleanShutdown(c, sendRst)) == Official(RESET)
  {
  }

  /** The flags and numbers each official state stands for. */
  ghost predicate Means(c: Connection, state: State) {
    var s, isn, ended := c.sender, c.receiver.isn, c.receiver.reasm.out.ended;
    var open := !s.stream.error && c.active;
    var finUnacked := s.finSent && 0 < s.ackno < s.next;
    match state
    case LISTEN => open && c.linger && !s.synSent && isn.None?
    case SYN_SENT => open && c.linger && s.synSent && s.ackno == 0 && isn.None?
    case SYN_RCVD => open && c.linger && s.synSent && s.ackno == 0 && isn.Some? && !ended
    case ESTABLISHED => open && c.linger && s.ackno > 0 && !s.finSent && isn.Some? && !ended
    case CLOSE_WAIT => open && !c.linger && s.ackno > 0 && !s.finSent && ended
    case LAST_ACK => open && !c.linger && finUnacked && ended
    case FIN_WAIT_1 => open && c.linger && finUnacked && isn.Some? && !ended
    case FIN_WAIT_2 => open && c.linger && s.finSent && s.ackno == s.next && isn.Some? && !ended
    case CLOSING => open && c.linger && finUnacked && ended
    case TIME_WAIT => open && c.linger && s.finSent && s.ackno == s.next && ended
    case CLOSED => !s.stream.error && !c.active && s.finSent && s.ackno == s.next && ended
    case RESET => s.stream.error && !c.active
  }

  /** An endpoint is in an official state exactly if its SYN, FIN and acknowledgments are as the name says. */
  lemma StateMeans(c: Connection, state: State)
    requires ConnInv(c)
    ensures StateOf(c) == Official(state) <==> Means(c, state)
  {
    hide S.SenderInv, MaximallyFilled, SummarizeSender, Reassembly.Inv;
    NamesError(c.sender);
    if !c.sender.stream.error {
      KnownSender(c);
      SummaryIsExact(c.sender);
      NumbersGrow(c.sender);
    }
  }

  lemma NumbersGrow(s: S.Sender)
    requires S.SenderInv(s)
    ensures s.ackno > 0 || s.finSent ==> s.synSent
    ensures s.finSent ==> s.next > 1
    ensures s.ackno <= s.next
  {
  }
}
