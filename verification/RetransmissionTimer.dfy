/** The retransmission timer over whole runs of a sender (tcp_sender.cc, tcp_connection.cc; section 5 of RFC 6298). */
module RetransmissionTimer {
  import opened Words
  import opened TCPConfig
  import opened WrappingIntegers
  import opened TCPSegments
  import opened Sending

  /** A sender with a clock: the milliseconds, and the retransmissions by kind, since the timer last started over. */
  datatype Timed = Timed(s: Sender, elapsed: nat, doublings: nat, zeroWindow: nat)

  datatype SenderCall =
    | WriteCall(data: seq<Byte>) | EndCall | FillCall | AckCall(ackno: U32, window: U16) | TickCall(ms: nat) | EmptyCall

  /** A first send starts the timer over. */
  function Filling(t: Timed, s: Sender): Timed {
    if t.s.outstanding == map[] && s.outstanding != map[] then Timed(s, 0, 0, 0) else t.(s := s)
  }

  predicate AcksSomething(s: Sender, ackno: U32) {
    var absolute := Unwrap(ackno, s.isn, s.ackno);
    absolute <= s.next && Unacked(s.outstanding, absolute) != s.outstanding
  }

  function ApplyCall(t: Timed, c: SenderCall): Timed {
    match c
    case WriteCall(data) => t.(s := WriteStream(t.s, data))
    case EndCall => t.(s := EndStream(t.s))
    case FillCall => Filling(t, FillWindow(t.s))
    case EmptyCall => t.(s := SendEmpty(t.s))
    case AckCall(ackno, window) =>
      var s := AckReceived(t.s, ackno, window);
      if AcksSomething(t.s, ackno) then Timed(s, 0, 0, 0) else Filling(t, s)
    case TickCall(ms) =>
      var s := Tick(t.s, ms);
      if !t.s.running then t.(s := s)
      else if !Expires(t.s, ms) then t.(s := s, elapsed := t.elapsed + ms)
      else if t.s.window > 0 then Timed(s, t.elapsed + ms, t.doublings + 1, t.zeroWindow)
      else Timed(s, t.elapsed + ms, t.doublings, t.zeroWindow + 1)
  }

  function RunCalls(t: Timed, calls: seq<SenderCall>): Timed
    decreases |calls|
  {
    if calls == [] then t else RunCalls(ApplyCall(t, calls[0]), calls[1..])
  }

  /**
   The timeout is the initial one, doubled once for every retransmission into an open window, in 32 bits; and as long as
   32 bits hold it, time has passed for each doubling.
   */
  ghost predicate Backoff(t: Timed) {
    && (t.doublings + t.zeroWindow) % TWO32 == t.s.retx
    && t.s.rto == t.s.initialRto * Pow2(t.doublings) % TWO32
    && (t.s.initialRto * Pow2(t.doublings) < TWO32 ==>
          t.s.initialRto * Pow2(t.doublings) - t.s.initialRto + t.s.timer <= t.elapsed)
  }

  lemma {:induction false} Pow2Monotone(j: nat, k: nat)
    requires j <= k
    ensures Pow2(j) <= Pow2(k)
    decreases k - j
  {
    if j < k { Pow2Monotone(j, k - 1); }
  }

  /** The doublings an endpoint can make before it gives up leave a 16-bit timeout inside 32 bits. */
  lemma TimeoutFits(initial: U16, doublings: nat)
    requires doublings <= MAX_RETX_ATTEMPTS + 1
    ensures 0 <= initial * Pow2(doublings) < TWO32
  {
    Pow2Monotone(doublings, 9);
    assert Pow2(9) == 512 by { assert Pow2(3) == 8; assert Pow2(6) == 64; }
    assert initial * Pow2(doublings) <= initial * 512 by { MulMonotone(initial, Pow2(doublings), 512); }
  }

  lemma MulMonotone(a: nat, b: nat, c: nat)
    requires b <= c
    ensures a * b <= a * c
  {
  }

  lemma DoubledTimeout(initial: nat, j: nat)
    ensures initial * Pow2(j + 1) == 2 * (initial * Pow2(j))
  {
  }

  /** Doubling in 32 bits is doubling cut to 32 bits. */
  lemma DoubledWord(x: nat)
    ensures x % TWO32 * 2 % TWO32 == 2 * x % TWO32
  {
    var q := x / TWO32;
    assert 2 * x == q * 2 * TWO32 + x % TWO32 * 2;
    ModPeels(q * 2, x % TWO32 * 2);
  }

  lemma ModPeels(q: nat, r: nat)
    ensures (q * TWO32 + r) % TWO32 == r % TWO32
  {
  }

  /** One more doubling, in 32 bits and in time; `x` is the timeout without the cut. */
  lemma OneDoubling(x: nat, initial: nat, rto: U32, timer: U32, ms: nat, elapsed: nat)
    requires rto == x % TWO32 && rto <= (timer + ms) % TWO32
    requires x < TWO32 ==> x - initial + timer <= elapsed
    ensures rto * 2 % TWO32 == 2 * x % TWO32
    ensures 2 * x < TWO32 ==> 2 * x - initial <= elapsed + ms
  {
    DoubledWord(x);
    CutIsLess(timer + ms);
  }

  lemma CutIsLess(x: nat)
    ensures x % TWO32 <= x
  {
  }

  lemma TickBackoff(t: Timed, ms: nat)
    requires Backoff(t)
    ensures Backoff(ApplyCall(t, TickCall(ms)))
  {
    hide Pow2;
    if t.s.running {
      CutIsLess(t.s.timer + ms);
      OneMoreRetransmission(t.doublings + t.zeroWindow);
      if Expires(t.s, ms) && t.s.window > 0 {
        DoubledTimeout(t.s.initialRto, t.doublings);
        OneDoubling(t.s.initialRto * Pow2(t.doublings), t.s.initialRto, t.s.rto, t.s.timer, ms, t.elapsed);
      }
    }
  }

  lemma OneMoreRetransmission(n: nat)
    ensures (n % TWO32 + 1) % TWO32 == (n + 1) % TWO32
  {
  }

  lemma FillBackoff(t: Timed, s: Sender)
    requires SenderInv(t.s) && Backoff(t) && Filled(t.s, s) && s.initialRto == t.s.initialRto
    ensures Backoff(Filling(t, s))
  {
  }

  /** What an acknowledgment does to the timer's fields. */
  lemma AckTimer(s: Sender, ackno: U32, window: U16)
    requires SenderInv(s)
    ensures var r := AckReceived(s, ackno, window);
      && r.initialRto == s.initialRto
      && (AcksSomething(s, ackno) ==> r.timer == 0 && r.rto == s.initialRto && r.retx == 0)
      && (!AcksSomething(s, ackno) && s.outstanding != map[] ==> r.outstanding != map[])
      && (!AcksSomething(s, ackno) ==>
            && r.rto == s.rto && r.retx == s.retx
            && r.timer == if s.outstanding == map[] && r.outstanding != map[] then 0 else s.timer)
  {
    hide SenderInv, CoreInv, Extends, NextSegment, FillWindow, Unacked;
    var absolute := Unwrap(ackno, s.isn, s.ackno);
    if absolute <= s.next {
      AckedInv(s, absolute, window);
      FillInv(Acked(s, absolute, window));
      SameTimeout(Acked(s, absolute, window), FillWindow(Acked(s, absolute, window)));
    }
  }

  lemma SameTimeout(s: Sender, s': Sender)
    requires Extends(s, s')
    ensures s'.initialRto == s.initialRto
  {
  }

  lemma AckBackoff(t: Timed, ackno: U32, window: U16)
    requires SenderInv(t.s) && Backoff(t)
    ensures Backoff(ApplyCall(t, AckCall(ackno, window)))
  {
    hide SenderInv, AckReceived, AcksSomething, Backoff;
    AckTimer(t.s, ackno, window);
    IdleTimer(t.s);
    var s := AckReceived(t.s, ackno, window);
    if AcksSomething(t.s, ackno) || (t.s.outstanding == map[] && s.outstanding != map[]) {
      StartsOver(s);
    } else {
      SameTimer(t, s);
    }
  }

  lemma StartsOver(s: Sender)
    requires s.timer == 0 && s.rto == s.initialRto && s.retx == 0
    ensures Backoff(Timed(s, 0, 0, 0))
  {
    assert Pow2(0) == 1;
  }

  lemma IdleTimer(s: Sender)
    requires SenderInv(s)
    ensures s.outstanding == map[] ==> s.rto == s.initialRto && s.retx == 0
  {
  }

  lemma CallKeeps(t: Timed, c: SenderCall)
    requires SenderInv(t.s) && Backoff(t)
    ensures SenderInv(ApplyCall(t, c).s) && Backoff(ApplyCall(t, c)) && ApplyCall(t, c).s.initialRto == t.s.initialRto
  {
    hide CoreInv, Backoff;
    match c
    case WriteCall(data) => StreamInv(t.s, data); SameTimer(t, WriteStream(t.s, data));
    case EndCall => StreamInv(t.s, []); SameTimer(t, EndStream(t.s));
    case EmptyCall => SendEmptyInv(t.s); SameTimer(t, SendEmpty(t.s));
    case FillCall => FillKeepsTimer(t.s); KnownCore(t.s); FillInv(t.s); FillBackoff(t, FillWindow(t.s));
    case AckCall(ackno, window) => AckInv(t.s, ackno, window); AckBackoff(t, ackno, window);
    case TickCall(ms) => TickInv(t.s, ms); TickBackoff(t, ms);
  }

  lemma KnownCore(s: Sender)
    requires SenderInv(s)
    ensures CoreInv(s)
  {
  }

  lemma SameTimer(t: Timed, s: Sender)
    requires Backoff(t) && s.timer == t.s.timer && s.rto == t.s.rto && s.retx == t.s.retx &&
        s.initialRto == t.s.initialRto
    ensures Backoff(t.(s := s))
  {
  }

  lemma {:induction false} RunKeeps(t: Timed, calls: seq<SenderCall>)
    requires SenderInv(t.s) && Backoff(t)
    ensures SenderInv(RunCalls(t, calls).s) && Backoff(RunCalls(t, calls)) &&
        RunCalls(t, calls).s.initialRto == t.s.initialRto
    decreases |calls|
  {
    hide SenderInv, Backoff;
    if calls != [] {
      CallKeeps(t, calls[0]);
      RunKeeps(ApplyCall(t, calls[0]), calls[1..]);
    }
  }

  /**
   In every run of a new sender: the timer runs exactly while something is outstanding, the timeout is the initial one
   doubled `doublings` times and cut to 32 bits, and unless that overflows so many retransmissions into an open window
   took at least (2^doublings - 1) times the initial timeout since the timer last started over.
   */
  lemma RetransmissionsTakeTime(capacity: nat, initial: U16, isn: U32, calls: seq<SenderCall>)
    ensures var t := RunCalls(Timed(NewSender(capacity, initial, isn), 0, 0, 0), calls);
      && (t.s.running <==> t.s.outstanding != map[])
      && (t.doublings + t.zeroWindow) % TWO32 == t.s.retx
      && t.s.rto == initial * Pow2(t.doublings) % TWO32
      && (initial * Pow2(t.doublings) < TWO32 ==> (Pow2(t.doublings) - 1) * initial <= t.elapsed)
  {
    hide CoreInv, Tiled;
    var start := Timed(NewSender(capacity, initial, isn), 0, 0, 0);
    NewInv(capacity, initial, isn);
    assert Pow2(0) == 1;
    RunKeeps(start, calls);
    var t := RunCalls(start, calls);
    KnownTimer(t.s);
    MulMinusOne(Pow2(t.doublings), initial);
  }

  lemma MulMinusOne(a: nat, b: nat)
    ensures (a - 1) * b == b * a - b
  {
  }

  lemma KnownTimer(s: Sender)
    requires SenderInv(s)
    ensures s.running <==> s.outstanding != map[]
  {
  }

  /** A step that does not wrap the 32-bit timer fires it exactly when the timeout is reached. */
  lemma ShortTickIsExact(s: Sender, ms: nat)
    requires SenderInv(s) && s.running && s.timer + ms < TWO32
    ensures Expires(s, ms) <==> s.timer + ms >= s.rto
  {
    hide CoreInv;
    KnownTimer(s);
  }

  /** A step that wraps it misses the timeout exactly when the remainder falls short: the expiry is lost, not late. */
  lemma LongTickMisses(s: Sender, ms: nat)
    requires SenderInv(s) && s.running && s.timer + ms >= TWO32
    ensures s.timer + ms >= s.rto
    ensures !Expires(s, ms) <==> (s.timer + ms) % TWO32 < s.rto
    ensures !Expires(s, ms) ==> Tick(s, ms).timer < s.rto && Tick(s, ms).queue == s.queue && Tick(s, ms).retx == s.retx
  {
  }

  /** A reachable case: the SYN is out, 2^32 ms pass in one step, and nothing is resent. */
  lemma LongTickCase(capacity: nat, initial: U16, isn: U32)
    requires initial > 0
    ensures var t := RunCalls(Timed(NewSender(capacity, initial, isn), 0, 0, 0), [FillCall]);
      && t.s.running && t.s.timer + TWO32 >= t.s.rto && !Expires(t.s, TWO32)
      && Tick(t.s, TWO32) == t.s && |t.s.queue| == 1
  {
    var s := NewSender(capacity, initial, isn);
    var seg := TCPSegment(HeaderAt(s).(syn := true), []);
    assert NextSegment(s) == Some(seg);
    assert NextSegment(Send(s, seg)) == None;
    assert FillWindow(Send(s, seg)) == Send(s, seg);
    var t := Timed(s, 0, 0, 0);
    assert [FillCall][1..] == [];
    assert RunCalls(t, [FillCall]) == ApplyCall(t, FillCall);
  }
}
