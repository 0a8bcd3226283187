/** What the sending half of an endpoint does (tcp_sender.cc), as functions on values. */
module Sending {
  import opened Words
  import opened WrappingIntegers
  import opened OrderedMaps
  import opened ByteStreams
  import opened TCPConfig
  import opened TCPSegments

  type Outstanding = map<nat, TCPSegment>

  /** `log` is history, not a field of the source: where every segment ever sent began, and its length. */
  datatype Sender = Sender(
    isn: U32, initialRto: U16, stream: Stream, next: nat, ackno: U64, window: U16,
    outstanding: Outstanding, queue: seq<TCPSegment>,
    rto: U32, timer: U32, running: bool, retx: U32, synSent: bool, finSent: bool,
    log: map<nat, nat>)

  function NewSender(capacity: nat, rto: U16, isn: U32): Sender {
    Sender(isn, rto, StreamState([], 0, capacity, false, false), 0, 0, 1, map[], [], rto, 0, false, 0, false, false,
      map[])
  }

  /** The first sequence number past the peer's window; a closed window counts as one. */
  function WindowRight(s: Sender): nat {
    s.ackno + if s.window == 0 then 1 else s.window
  }

  function PayloadSize(s: Sender): nat
    requires s.next <= WindowRight(s)
  {
    Min(Min(WindowRight(s) - s.next, MAX_PAYLOAD_SIZE), BufferSize(s.stream))
  }

  function HeaderAt(s: Sender): TCPHeader { DEFAULT_HEADER.(seqno := Wrap(s.next, s.isn)) }

  /** The segment the fill loop sends next, if it sends one. */
  function NextSegment(s: Sender): Option<TCPSegment> {
    if s.next >= WindowRight(s) then None
    else if !s.synSent then Some(TCPSegment(HeaderAt(s).(syn := true), []))
    else
      var n := PayloadSize(s);
      if n == 0 then
        if Eof(s.stream) && !s.finSent then Some(TCPSegment(HeaderAt(s).(fin := true), [])) else None
      else
        var fin := !s.finSent && Eof(Pop(s.stream, n)) && s.next + n < WindowRight(s);
        Some(TCPSegment(HeaderAt(s).(fin := fin), Peek(s.stream, n)))
  }

  /** Number, track and queue a segment; the timer starts over when nothing was outstanding. */
  function Send(s: Sender, seg: TCPSegment): Sender {
    s.(stream := Pop(s.stream, |seg.payload|),
       synSent := s.synSent || seg.header.syn,
       finSent := s.finSent || seg.header.fin,
       timer := if s.outstanding == map[] then 0 else s.timer,
       running := s.running || s.outstanding == map[],
       next := s.next + Length(seg),
       outstanding := s.outstanding[s.next := seg],
       log := s.log[s.next := Length(seg)],
       queue := s.queue + [seg])
  }

  lemma NextSegmentFits(s: Sender)
    requires NextSegment(s).Some?
    ensures var seg := NextSegment(s).value;
      && 0 < Length(seg) && s.next + Length(seg) <= WindowRight(s)
      && |seg.payload| <= MAX_PAYLOAD_SIZE
      && WindowRight(Send(s, seg)) == WindowRight(s)
  {
  }

  function FillWindow(s: Sender): Sender
    decreases WindowRight(s) - s.next
  {
    match NextSegment(s)
    case None => s
    case Some(seg) => NextSegmentFits(s); FillWindow(Send(s, seg))
  }

  function WriteStream(s: Sender, data: seq<Byte>): Sender { s.(stream := Write(s.stream, data)) }

  function EndStream(s: Sender): Sender { s.(stream := s.stream.(ended := true)) }

  function FailStream(s: Sender): Sender { s.(stream := s.stream.(error := true)) }

  /** The outstanding segments not fully covered by an acknowledgment. */
  function Unacked(m: Outstanding, absolute: nat): Outstanding {
    map k | k in m && absolute < k + Length(m[k]) :: m[k]
  }

  function Acked(s: Sender, absolute: U64, window: U16): Sender {
    var rest := Unacked(s.outstanding, absolute);
    var s1 := s.(window := window, outstanding := rest, ackno := Max(s.ackno, absolute));
    if rest == s.outstanding then s1 else s1.(timer := 0, rto := s.initialRto, retx := 0)
  }

  function AckReceived(s: Sender, ackno: U32, window: U16): Sender {
    var absolute := Unwrap(ackno, s.isn, s.ackno);
    if absolute > s.next then s
    else
      var filled := FillWindow(Acked(s, absolute, window));
      if filled.outstanding == map[] then filled.(running := false) else filled
  }

  /** The timer is a 32-bit counter; it expires by comparison, so a step that wraps it does not fire it. */
  predicate Expires(s: Sender, ms: nat) {
    s.running && (s.timer + ms) % TWO32 >= s.rto && s.outstanding != map[]
  }

  function Tick(s: Sender, ms: nat): Sender {
    if !s.running then s
    else if !Expires(s, ms) then s.(timer := (s.timer + ms) % TWO32)
    else
      s.(timer := 0,
         queue := s.queue + [s.outstanding[CeilKey(s.outstanding, 0).value]],
         rto := if s.window > 0 then s.rto * 2 % TWO32 else s.rto,
         retx := (s.retx + 1) % TWO32)
  }

  function SendEmpty(s: Sender): Sender {
    s.(queue := s.queue + [TCPSegment(HeaderAt(s), [])])
  }

  /** `bytes_in_flight`: the lengths of all outstanding segments. */
  ghost function InFlight(m: Outstanding): nat
    decreases |m|
  {
    match CeilKey(m, 0)
    case None => 0
    case Some(k) => RemoveShrinks(m, k); Length(m[k]) + InFlight(m - {k})
  }

  function Oldest(s: Sender): nat {
    match CeilKey(s.outstanding, 0)
    case None => s.next
    case Some(k) => k
  }

  // ---------------------------------------------------------------- invariants

  /** The stream bytes that have been put into segments. */
  function Sent(s: Sender): seq<Byte> { s.stream.all[..s.stream.read] }

  ghost predicate Part(s: seq<Byte>, index: int, data: seq<Byte>) {
    0 <= index && index + |data| <= |s| && data == s[index..index + |data|]
  }

  /** The segment holds exactly what the sequence numbers from `absolute` on name. */
  ghost predicate Carries(seg: TCPSegment, absolute: nat, s: Sender) {
    && seg.header.seqno == Wrap(absolute, s.isn)
    && absolute + Length(seg) <= s.next
    && |seg.payload| <= MAX_PAYLOAD_SIZE
    && (seg.header.syn ==> absolute == 0 && seg.payload == [] && !seg.header.fin)
    && (seg.payload != [] ==> Part(Sent(s), absolute - 1, seg.payload))
    && (seg.header.fin ==> absolute > 0 && s.finSent && absolute + Length(seg) == s.next)
    && (Length(seg) > 0 ==> absolute in s.log && s.log[absolute] == Length(seg))
  }

  ghost predicate Carried(seg: TCPSegment, s: Sender) {
    exists absolute :: Carries(seg, absolute, s)
  }

  /** The segments abut one another up to `next`, and `una` lies inside the first. */
  ghost predicate Tiled(m: Outstanding, una: nat, next: nat) {
    && una <= next
    && (una == next <==> m == map[])
    && (m != map[] ==> CeilKey(m, 0).value <= una)
    && (forall k :: k in m ==> k < k + Length(m[k]) <= next && una < k + Length(m[k]))
    && Abuts(m, next)
    && (forall j, k :: j in m && k in m && j < k ==> j + Length(m[j]) <= k)
  }

  /** Every segment ends where another begins, or at `next`. */
  ghost predicate Abuts(m: Outstanding, next: nat) {
    forall k :: k in m ==> k + Length(m[k]) == next || k + Length(m[k]) in m
  }

  ghost predicate Counts(s: Sender) {
    && s.next == s.stream.read + (if s.synSent then 1 else 0) + (if s.finSent then 1 else 0)
    && (!s.synSent ==> s.stream.read == 0 && !s.finSent)
    && (s.finSent ==> Eof(s.stream))
  }

  /** The segments ever sent never overlap, so a number begins a segment or lies inside one, for good. */
  ghost predicate Logged(log: map<nat, nat>, next: nat) {
    && (forall k :: k in log ==> k < k + log[k] <= next)
    && (forall j, k :: j in log && k in log && j < k ==> j + log[j] <= k)
  }

  ghost predicate TracksSegments(s: Sender) {
    && (forall k :: k in s.outstanding ==> Carries(s.outstanding[k], k, s) && Plain(s.outstanding[k]))
    && (forall i :: 0 <= i < |s.queue| ==> Carried(s.queue[i], s) && Plain(s.queue[i]))
  }

  /** The sender leaves the acknowledgment and reset fields to the connection. */
  predicate Plain(seg: TCPSegment) { !seg.header.ack && !seg.header.rst }

  ghost predicate CoreInv(s: Sender) {
    && Counts(s) && Tiled(s.outstanding, s.ackno, s.next) && TracksSegments(s) && Logged(s.log, s.next)
    && (s.outstanding != map[] ==> s.running)
    && (s.outstanding == map[] ==> s.rto == s.initialRto && s.retx == 0)
  }

  /** What every public call keeps; the timer runs exactly while something is outstanding. */
  ghost predicate SenderInv(s: Sender) {
    CoreInv(s) && (s.running ==> s.outstanding != map[])
  }

  /** What one sender state leaves for later ones: its numbering and the meaning of its segments are final. */
  ghost predicate Extends(s: Sender, s': Sender) {
    && s'.isn == s.isn && s'.initialRto == s.initialRto
    && Sent(s) <= Sent(s') && s.next <= s'.next && s.ackno <= s'.ackno
    && (forall k :: k in s.log ==> k in s'.log && s'.log[k] == s.log[k])
    && (s.finSent ==> s'.finSent && s'.next == s.next)
    && (s.synSent ==> s'.synSent)
  }

  lemma CarriesExtends(seg: TCPSegment, absolute: nat, s: Sender, s': Sender)
    requires Carries(seg, absolute, s) && Extends(s, s')
    ensures Carries(seg, absolute, s')
  {
    if seg.payload != [] {
      var lo, hi := absolute - 1, absolute - 1 + |seg.payload|;
      assert Sent(s')[..|Sent(s)|] == Sent(s);
      assert Sent(s')[lo..hi] == Sent(s')[..|Sent(s)|][lo..hi];
    }
  }

  lemma CarriedExtends(seg: TCPSegment, s: Sender, s': Sender)
    requires Carried(seg, s) && Extends(s, s')
    ensures Carried(seg, s')
  {
    var absolute :| Carries(seg, absolute, s);
    CarriesExtends(seg, absolute, s, s');
  }

  lemma NewInv(capacity: nat, rto: U16, isn: U32)
    ensures SenderInv(NewSender(capacity, rto, isn))
  {
  }

  // ---------------------------------------------------------------- sending

  lemma LogAppend(log: map<nat, nat>, next: nat, length: nat)
    requires Logged(log, next) && length > 0
    ensures Logged(log[next := length], next + length) && next !in log
  {
  }

  lemma SendExtends(s: Sender, seg: TCPSegment)
    requires CoreInv(s) && NextSegment(s) == Some(seg)
    ensures Extends(s, Send(s, seg)) && Counts(Send(s, seg))
    ensures Carries(seg, s.next, Send(s, seg)) && Plain(seg)
  {
    hide Tiled, TracksSegments, NextSegment, Counts;
    NextSegmentFits(s);
    LogAppend(s.log, s.next, Length(seg));
    NextSegmentShape(s, seg);
    NextSegmentReads(s, seg);
  }

  /** What the fill loop may put into a segment, and how the counters move with it. */
  lemma NextSegmentShape(s: Sender, seg: TCPSegment)
    requires Counts(s) && NextSegment(s) == Some(seg)
    ensures seg.header.seqno == Wrap(s.next, s.isn) && |seg.payload| <= MAX_PAYLOAD_SIZE && Plain(seg)
    ensures seg.header.syn ==> !s.synSent && s.next == 0 && seg.payload == [] && !seg.header.fin
    ensures !seg.header.syn ==> s.synSent && s.next == s.stream.read + 1 && !s.finSent
    ensures seg.header.fin ==> s.synSent && s.next > 0
    ensures s.finSent ==> seg.payload == [] && !seg.header.fin && !seg.header.syn
    ensures Counts(Send(s, seg))
  {
    NextSegmentFits(s);
  }

  /** The payload is the next slice of the stream, and becomes the last of what is sent. */
  lemma NextSegmentReads(s: Sender, seg: TCPSegment)
    requires NextSegment(s) == Some(seg)
    ensures Sent(s) <= Sent(Send(s, seg))
    ensures seg.payload != [] ==> Part(Sent(Send(s, seg)), s.stream.read, seg.payload)
  {
    NextSegmentFits(s);
    PeekIsNext(s.stream, |seg.payload|);
    var s' := Send(s, seg);
    assert Sent(s')[..|Sent(s)|] == Sent(s);
    if seg.payload != [] {
      assert Sent(s')[s.stream.read..s'.stream.read] == s.stream.all[s.stream.read..s'.stream.read];
    }
  }

  lemma TileAppend(m: Outstanding, una: nat, next: nat, seg: TCPSegment)
    requires Tiled(m, una, next) && Length(seg) > 0
    ensures Tiled(m[next := seg], una, next + Length(seg))
  {
    AppendBegins(m, next, seg);
    AppendFollows(m, next, seg);
    AppendAbuts(m, next, seg);
  }

  lemma AppendFollows(m: Outstanding, next: nat, seg: TCPSegment)
    requires forall k :: k in m ==> k < k + Length(m[k]) <= next
    requires forall j, k :: j in m && k in m && j < k ==> j + Length(m[j]) <= k
    ensures var m' := m[next := seg]; forall j, k :: j in m' && k in m' && j < k ==> j + Length(m'[j]) <= k
  {
  }

  lemma AppendAbuts(m: Outstanding, next: nat, seg: TCPSegment)
    requires forall k :: k in m ==> k < next
    requires Abuts(m, next)
    ensures Abuts(m[next := seg], next + Length(seg))
  {
  }

  /** A key past all others does not change the first one. */
  lemma AppendBegins(m: Outstanding, next: nat, seg: TCPSegment)
    requires forall k :: k in m ==> k < next
    ensures CeilKey(m[next := seg], 0) == if m == map[] then Some(next) else CeilKey(m, 0)
  {
    var m' := m[next := seg];
    assert next in m';
    if m != map[] {
      assert CeilKey(m, 0).value in m' && CeilKey(m', 0).value <= CeilKey(m, 0).value;
    }
  }

  lemma SendInv(s: Sender, seg: TCPSegment)
    requires CoreInv(s) && NextSegment(s) == Some(seg)
    ensures CoreInv(Send(s, seg)) && Extends(s, Send(s, seg))
  {
    hide Tiled, TracksSegments, Extends, Carries, Logged, NextSegment;
    NextSegmentFits(s);
    SendExtends(s, seg);
    TileAppend(s.outstanding, s.ackno, s.next, seg);
    LogAppend(s.log, s.next, Length(seg));
    SendTracks(s, seg);
  }

  lemma SendTracks(s: Sender, seg: TCPSegment)
    requires CoreInv(s) && Extends(s, Send(s, seg))
    requires Carries(seg, s.next, Send(s, seg)) && Plain(seg)
    ensures TracksSegments(Send(s, seg))
  {
    var s' := Send(s, seg);
    forall k | k in s'.outstanding ensures Carries(s'.outstanding[k], k, s') && Plain(s'.outstanding[k]) {
      if k != s.next { CarriesExtends(s.outstanding[k], k, s, s'); }
    }
    forall i | 0 <= i < |s'.queue| ensures Carried(s'.queue[i], s') && Plain(s'.queue[i]) {
      if i < |s.queue| { CarriedExtends(s.queue[i], s, s'); }
    }
  }

  lemma ExtendsReflexive(s: Sender)
    ensures Extends(s, s)
  {
  }

  lemma ExtendsTransitive(s: Sender, t: Sender, u: Sender)
    requires Extends(s, t) && Extends(t, u)
    ensures Extends(s, u)
  {
  }

  /** What filling leaves alone, how far it goes, and that it stops only when there is nothing it may send. */
  ghost predicate Filled(s: Sender, f: Sender) {
    && f.ackno == s.ackno && f.window == s.window && f.rto == s.rto && f.retx == s.retx
    && f.stream == s.stream.(read := f.stream.read)
    && f.next <= Max(s.next, WindowRight(s))
    && s.queue <= f.queue
    && (s.outstanding != map[] ==> f.outstanding != map[])
    && (f.running ==> s.running || f.outstanding != map[])
    && f.timer == (if s.outstanding == map[] && f.outstanding != map[] then 0 else s.timer)
    && NextSegment(f).None?
  }

  lemma FilledStep(s: Sender, seg: TCPSegment, f: Sender)
    requires NextSegment(s) == Some(seg) && Filled(Send(s, seg), f)
    ensures Filled(s, f)
  {
    NextSegmentFits(s);
    assert s.queue <= Send(s, seg).queue;
    assert s.next in Send(s, seg).outstanding;
  }

  lemma {:induction false} FillInv(s: Sender)
    requires CoreInv(s)
    ensures CoreInv(FillWindow(s)) && Extends(s, FillWindow(s)) && Filled(s, FillWindow(s))
    decreases WindowRight(s) - s.next
  {
    hide Counts, Tiled, TracksSegments;
    match NextSegment(s)
    case None =>
    case Some(seg) =>
      NextSegmentFits(s);
      SendInv(s, seg);
      FillInv(Send(s, seg));
      FilledStep(s, seg, FillWindow(Send(s, seg)));
      ExtendsTransitive(s, Send(s, seg), FillWindow(s));
  }

  /** Filling is maximal: the window is used up, or the buffer is empty and a FIN is sent or not yet due. */
  lemma FillIsMaximal(s: Sender)
    requires CoreInv(s)
    ensures var f := FillWindow(s);
      f.next >= WindowRight(f) || (f.synSent && BufferSize(f.stream) == 0 && (f.finSent || !f.stream.ended))
  {
    FillInv(s);
  }

  lemma FillKeepsTimer(s: Sender)
    requires SenderInv(s)
    ensures SenderInv(FillWindow(s))
  {
    FillInv(s);
  }

  // ---------------------------------------------------------------- acknowledgments

  /** An acknowledgment takes away a prefix of the segments: everything removed precedes everything kept. */
  lemma AckRemovesPrefix(m: Outstanding, una: nat, next: nat, absolute: nat)
    requires Tiled(m, una, next)
    ensures forall j, k :: j in m && j !in Unacked(m, absolute) && k in Unacked(m, absolute) ==> j + Length(m[j]) <= k
  {
    forall j, k | j in m && j !in Unacked(m, absolute) && k in Unacked(m, absolute)
      ensures j + Length(m[j]) <= k
    {
      assert j < k || k < j;
    }
  }

  /** The segment that ends where another begins. */
  lemma Predecessor(m: Outstanding, una: nat, next: nat, k: nat) returns (p: nat)
    requires Tiled(m, una, next) && k in m && k != CeilKey(m, 0).value
    ensures p in m && p + Length(m[p]) == k
  {
    var first := CeilKey(m, 0).value;
    assert first in m && first <= k - 1;
    p := FloorKey(m, k - 1).value;
    var end := p + Length(m[p]);
    assert end <= k < next;
    assert end in m && p < end;
  }

  lemma Last(m: Outstanding, una: nat, next: nat) returns (p: nat)
    requires Tiled(m, una, next) && m != map[]
    ensures p in m && p + Length(m[p]) == next
  {
    var first := CeilKey(m, 0).value;
    assert first in m && first <= next;
    p := FloorKey(m, next).value;
    var end := p + Length(m[p]);
    assert end in m ==> end <= next && p < end;
  }

  /** Either all is acknowledged, or the first segment kept begins no later than the acknowledged number. */
  lemma KeptBegins(m: Outstanding, una: nat, next: nat, absolute: nat)
    requires Tiled(m, una, next) && absolute <= next
    ensures var rest := Unacked(m, absolute);
      if rest == map[] then Max(una, absolute) == next
      else absolute < next && CeilKey(rest, 0).value <= Max(una, absolute)
  {
    var rest := Unacked(m, absolute);
    if rest != map[] {
      var f := CeilKey(rest, 0).value;
      if f != CeilKey(m, 0).value {
        var p := Predecessor(m, una, next, f);
        assert p !in rest;
      }
    } else if m != map[] {
      var p := Last(m, una, next);
      assert p !in rest;
    }
  }

  lemma AckTiles(m: Outstanding, una: nat, next: nat, absolute: nat)
    requires Tiled(m, una, next) && absolute <= next
    ensures Tiled(Unacked(m, absolute), Max(una, absolute), next)
  {
    hide Abuts;
    KeptBegins(m, una, next, absolute);
    KeptAbut(m, next, absolute);
  }

  /** What follows a segment that is kept is kept too. */
  lemma KeptAbut(m: Outstanding, next: nat, absolute: nat)
    requires Abuts(m, next) && forall k :: k in m ==> k < k + Length(m[k])
    ensures Abuts(Unacked(m, absolute), next)
  {
    var rest := Unacked(m, absolute);
    forall k | k in rest ensures k + Length(rest[k]) == next || k + Length(rest[k]) in rest {
      assert k + Length(m[k]) in m ==> k + Length(m[k]) in rest;
    }
  }

  lemma AckedInv(s: Sender, absolute: U64, window: U16)
    requires SenderInv(s) && absolute <= s.next
    ensures CoreInv(Acked(s, absolute, window)) && Extends(s, Acked(s, absolute, window))
  {
    hide Tiled, TracksSegments;
    AckTiles(s.outstanding, s.ackno, s.next, absolute);
    TracksFewer(s, Acked(s, absolute, window));
  }

  lemma StopTimer(s: Sender)
    requires CoreInv(s) && s.outstanding == map[]
    ensures SenderInv(s.(running := false)) && Extends(s, s.(running := false))
  {
    TracksFewer(s, s.(running := false));
  }

  /**
   * Whatever the peer acknowledges, the invariant holds; an acceptable acknowledgment also leaves the window filled.
   */
  lemma AckInv(s: Sender, ackno: U32, window: U16)
    requires SenderInv(s)
    ensures SenderInv(AckReceived(s, ackno, window)) && Extends(s, AckReceived(s, ackno, window))
    ensures s.queue <= AckReceived(s, ackno, window).queue
    ensures Unwrap(ackno, s.isn, s.ackno) <= s.next ==> NextSegment(AckReceived(s, ackno, window)).None?
    ensures Unwrap(ackno, s.isn, s.ackno) <= s.next ==> AckReceived(s, ackno, window).window == window
    ensures Unwrap(ackno, s.isn, s.ackno) <= s.next ==>
      AckReceived(s, ackno, window).ackno == Max(s.ackno, Unwrap(ackno, s.isn, s.ackno))
    ensures AckReceived(s, ackno, window).ackno in {s.ackno, Unwrap(ackno, s.isn, s.ackno)}
    ensures Unwrap(ackno, s.isn, s.ackno) > s.next ==> AckReceived(s, ackno, window) == s
    ensures var s' := AckReceived(s, ackno, window);
      s'.stream == s.stream.(read := s'.stream.read) && s'.retx <= s.retx
  {
    hide Counts, Tiled, TracksSegments, Extends, Acked;
    var absolute := Unwrap(ackno, s.isn, s.ackno);
    if absolute <= s.next {
      var a := Acked(s, absolute, window);
      AckedInv(s, absolute, window);
      FillInv(a);
      var f := FillWindow(a);
      ExtendsTransitive(s, a, f);
      AckedShape(s, absolute, window);
      if f.outstanding == map[] {
        StopTimer(f);
        ExtendsTransitive(s, f, f.(running := false));
      }
    } else {
      ExtendsReflexive(s);
    }
  }

  lemma AckedShape(s: Sender, absolute: U64, window: U16)
    ensures var a := Acked(s, absolute, window);
      a.ackno == Max(s.ackno, absolute) && a.window == window && a.queue == s.queue && a.stream == s.stream
      && a.retx <= s.retx
  {
  }

  /** What segments mean outlives any later state that tracks no others. */
  lemma TracksFewer(s: Sender, s': Sender)
    requires TracksSegments(s) && Extends(s, s')
    requires forall k :: k in s'.outstanding ==> k in s.outstanding && s'.outstanding[k] == s.outstanding[k]
    requires forall seg :: seg in s'.queue ==> seg in s.queue
    ensures TracksSegments(s')
  {
    forall k | k in s'.outstanding ensures Carries(s'.outstanding[k], k, s') && Plain(s'.outstanding[k]) {
      CarriesExtends(s.outstanding[k], k, s, s');
    }
    forall i | 0 <= i < |s'.queue| ensures Carried(s'.queue[i], s') && Plain(s'.queue[i]) {
      assert s'.queue[i] in s.queue;
      CarriedExtends(s'.queue[i], s, s');
    }
  }

  // ---------------------------------------------------------------- the rest

  lemma TickInv(s: Sender, ms: nat)
    requires SenderInv(s)
    ensures SenderInv(Tick(s, ms)) && Extends(s, Tick(s, ms)) && s.queue <= Tick(s, ms).queue
  {
    if Expires(s, ms) {
      var k := CeilKey(s.outstanding, 0).value;
      assert Carries(s.outstanding[k], k, s);
      assert Carried(s.outstanding[k], s);
      QueueInv(s, s.outstanding[k]);
      TracksFewer(s.(queue := s.queue + [s.outstanding[k]]), Tick(s, ms));
    } else {
      TracksFewer(s, Tick(s, ms));
    }
  }

  lemma QueueInv(s: Sender, seg: TCPSegment)
    requires SenderInv(s) && Carried(seg, s) && Plain(seg)
    ensures SenderInv(s.(queue := s.queue + [seg])) && Extends(s, s.(queue := s.queue + [seg]))
  {
    var s' := s.(queue := s.queue + [seg]);
    forall k | k in s'.outstanding ensures Carries(s'.outstanding[k], k, s') {
      CarriesExtends(s.outstanding[k], k, s, s');
    }
    forall i | 0 <= i < |s'.queue| ensures Carried(s'.queue[i], s') && Plain(s'.queue[i]) {
      CarriedExtends(s'.queue[i], s, s');
    }
  }

  lemma SendEmptyInv(s: Sender)
    requires SenderInv(s)
    ensures SenderInv(SendEmpty(s)) && Extends(s, SendEmpty(s)) && s.queue <= SendEmpty(s).queue
  {
    assert Carries(TCPSegment(HeaderAt(s), []), s.next, s);
    QueueInv(s, TCPSegment(HeaderAt(s), []));
  }

  /** Taking segments off the queue, or writing to, ending or failing the stream, breaks nothing. */
  lemma StreamInv(s: Sender, data: seq<Byte>)
    requires SenderInv(s)
    ensures SenderInv(WriteStream(s, data)) && Extends(s, WriteStream(s, data))
    ensures SenderInv(EndStream(s)) && Extends(s, EndStream(s))
    ensures SenderInv(FailStream(s)) && Extends(s, FailStream(s))
    ensures SenderInv(s.(queue := [])) && Extends(s, s.(queue := []))
  {
    assert Sent(WriteStream(s, data)) == Sent(s);
    TracksFewer(s, WriteStream(s, data));
    TracksFewer(s, EndStream(s));
    TracksFewer(s, FailStream(s));
    TracksFewer(s, s.(queue := []));
  }

  lemma RestBegins(m: Outstanding, una: nat, next: nat, k: nat)
    requires Tiled(m, una, next) && IsCeil(m, 0, k)
    ensures k + Length(m[k]) == next ==> m - {k} == map[]
    ensures k + Length(m[k]) != next ==> CeilKey(m - {k}, 0) == Some(k + Length(m[k]))
  {
    var end := k + Length(m[k]);
    assert forall j :: j in m && j != k ==> end <= j < next;
    assert end != next ==> end in m - {k};
  }

  lemma RestIsTiled(m: Outstanding, una: nat, next: nat, k: nat)
    requires Tiled(m, una, next) && IsCeil(m, 0, k)
    ensures Tiled(m - {k}, k + Length(m[k]), next)
  {
    RestBegins(m, una, next, k);
    var end := k + Length(m[k]);
    assert forall j :: j in m && j != k ==> end <= j && j + Length(m[j]) != k;
  }

  lemma {:induction false} InFlightSpan(m: Outstanding, una: nat, next: nat)
    requires Tiled(m, una, next)
    ensures InFlight(m) == if m == map[] then 0 else next - CeilKey(m, 0).value
    decreases |m|
  {
    hide Tiled, Length;
    if m != map[] {
      var k: nat := CeilKey(m, 0).value;
      RemoveShrinks(m, k);
      var rest: Outstanding := m - {k};
      var una' := k + Length(m[k]);
      RestBegins(m, una, next, k);
      RestIsTiled(m, una, next, k);
      InFlightSpan(rest, una', next);
    }
  }

  /** `bytes_in_flight` is the distance from the oldest outstanding number to the next one. */
  lemma BytesInFlight(s: Sender)
    requires SenderInv(s)
    ensures InFlight(s.outstanding) == s.next - Oldest(s)
    ensures InFlight(s.outstanding) == 0 <==> s.ackno == s.next
  {
    InFlightSpan(s.outstanding, s.ackno, s.next);
  }
}
