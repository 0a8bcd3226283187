/** What filling the window sends, written down without the loop (tcp_sender.cc). */
module Fillings {
  import opened Words
  import opened WrappingIntegers
  import opened ByteStreams
  import opened TCPSegments
  import opened Sending

  // ---------------------------------------------------------------- the plan

  /** The numbers the peer's window leaves from `from` on; a closed window counts as one. */
  function Room(s: Sender, from: nat): nat { Max(s.ackno + Max(s.window, 1) - from, 0) }

  /** How many bytes go out: what is buffered, as far as the window allows. */
  function Bytes(s: Sender, from: nat): nat { Min(Room(s, from), |s.stream.all| - s.stream.read) }

  /** The FIN goes out too when the stream is over and the window has a number left for it. */
  predicate FinGoes(s: Sender, from: nat) {
    && s.stream.ended && !s.finSent
    && |s.stream.all| - s.stream.read == Bytes(s, from) && Bytes(s, from) < Room(s, from)
  }

  /** Full segments of 1000 bytes and a last one; a FIN with no bytes to ride on goes alone. */
  function Pieces(s: Sender, from: nat): nat {
    if Bytes(s, from) == 0 then (if FinGoes(s, from) then 1 else 0) else (Bytes(s, from) + 999) / 1000
  }

  function Piece(s: Sender, from: nat, i: nat): TCPSegment
    requires i < Pieces(s, from)
  {
    var first, end := s.stream.read + 1000 * i, s.stream.read + Min(1000 * (i + 1), Bytes(s, from));
    var fin := FinGoes(s, from) && i == Pieces(s, from) - 1;
    TCPSegment(TCPHeader(0, 0, Wrap(from + 1000 * i, s.isn), 0, 5, false, false, false, false, false, fin, 0, 0, 0),
               s.stream.all[first..end])
  }

  function Data(s: Sender, from: nat): seq<TCPSegment> {
    seq(Pieces(s, from), i requires 0 <= i < Pieces(s, from) => Piece(s, from, i))
  }

  function Syn(s: Sender): TCPSegment {
    TCPSegment(TCPHeader(0, 0, Wrap(s.next, s.isn), 0, 5, false, false, false, false, true, false, 0, 0, 0), [])
  }

  /** Everything filling sends: the SYN first, then the bytes, cut as late as possible, then the FIN. */
  function Planned(s: Sender): seq<TCPSegment> {
    if s.synSent then Data(s, s.next)
    else if Room(s, s.next) == 0 then []
    else [Syn(s)] + Data(s, s.next + 1)
  }

  /** Each segment under its first number, one behind the other. */
  function Numbered(segs: seq<TCPSegment>, from: nat): Outstanding {
    if segs == [] then map[] else map[from := segs[0]] + Numbered(segs[1..], from + Length(segs[0]))
  }

  /** The sequence numbers some segments take up. */
  function Span(segs: seq<TCPSegment>): nat {
    if segs == [] then 0 else Length(segs[0]) + Span(segs[1..])
  }

  // ---------------------------------------------------------------- the loop sends what is planned

  lemma RoomIsWindow(s: Sender)
    ensures s.next >= WindowRight(s) <==> Room(s, s.next) == 0
    ensures s.next < WindowRight(s) ==> Room(s, s.next) == WindowRight(s) - s.next
  {
  }

  lemma NothingPlanned(s: Sender)
    requires Counts(s) && NextSegment(s).None?
    ensures Planned(s) == []
  {
    RoomIsWindow(s);
  }

  lemma FirstIsPlanned(s: Sender, seg: TCPSegment)
    requires Counts(s) && NextSegment(s) == Some(seg)
    ensures Planned(s) != [] && Planned(s)[0] == seg
  {
    RoomIsWindow(s);
    if s.synSent {
      PeekIsNext(s.stream, PayloadSize(s));
    }
  }

  /** What one data segment leaves to be sent. */
  lemma RoomShrinks(s: Sender, seg: TCPSegment)
    requires Counts(s) && s.synSent && NextSegment(s) == Some(seg)
    ensures var s', p := Send(s, seg), |seg.payload|;
      && Bytes(s', s'.next) == Bytes(s, s.next) - p && p == Min(Bytes(s, s.next), 1000)
      && seg.header.fin == (FinGoes(s, s.next) && p == Bytes(s, s.next))
      && FinGoes(s', s'.next) == (FinGoes(s, s.next) && !seg.header.fin)
      && s'.stream == s.stream.(read := s.stream.read + p) && s'.isn == s.isn
      && s'.next == s.next + p + (if seg.header.fin then 1 else 0)
  {
    RoomIsWindow(s);
    NextSegmentFits(s);
    RoomIsWindow(Send(s, seg));
  }

  lemma PiecesShrink(s: Sender, s': Sender, p: nat)
    requires p == Min(Bytes(s, s.next), 1000) && Bytes(s', s'.next) == Bytes(s, s.next) - p
    requires FinGoes(s', s'.next) == (FinGoes(s, s.next) && p < Bytes(s, s.next))
    requires p > 0 || FinGoes(s, s.next)
    ensures Pieces(s', s'.next) == Pieces(s, s.next) - 1
    ensures Pieces(s', s'.next) > 0 ==> p == 1000 && p < Bytes(s, s.next)
  {
    hide Bytes, FinGoes;
  }

  /** After the first piece, the rest of the plan is the plan of what is left. */
  lemma DataShifts(s: Sender, seg: TCPSegment)
    requires Counts(s) && s.synSent && NextSegment(s) == Some(seg)
    ensures var s' := Send(s, seg); Data(s, s.next) != [] && Data(s', s'.next) == Data(s, s.next)[1..]
  {
    hide Bytes, FinGoes, Pieces, Send, Counts, NextSegment;
    RoomShrinks(s, seg);
    SomethingGoes(s, seg);
    var s' := Send(s, seg);
    PiecesShrink(s, s', |seg.payload|);
    forall i | 0 <= i < Pieces(s', s'.next) ensures Piece(s', s'.next, i) == Piece(s, s.next, i + 1) {
      PieceShifts(s, s', i);
    }
  }

  lemma SomethingGoes(s: Sender, seg: TCPSegment)
    requires Counts(s) && s.synSent && NextSegment(s) == Some(seg)
    ensures |seg.payload| > 0 || seg.header.fin
  {
  }

  lemma PieceShifts(s: Sender, s': Sender, i: nat)
    requires i < Pieces(s', s'.next) == Pieces(s, s.next) - 1
    requires Bytes(s', s'.next) == Bytes(s, s.next) - 1000 && FinGoes(s', s'.next) == FinGoes(s, s.next)
    requires s'.stream == s.stream.(read := s.stream.read + 1000) && s'.isn == s.isn && s'.next == s.next + 1000
    ensures Piece(s', s'.next, i) == Piece(s, s.next, i + 1)
  {
    hide FinGoes, Pieces, Wrap;
    assert s'.next + 1000 * i == s.next + 1000 * (i + 1);
  }

  lemma RestIsPlanned(s: Sender, seg: TCPSegment)
    requires Counts(s) && NextSegment(s) == Some(seg)
    ensures Planned(s) != [] && Planned(Send(s, seg)) == Planned(s)[1..]
  {
    hide Pieces, Data;
    FirstIsPlanned(s, seg);
    if s.synSent { DataShifts(s, seg); } else { AfterSyn(s, seg); }
  }

  lemma AfterSyn(s: Sender, seg: TCPSegment)
    requires Counts(s) && !s.synSent && NextSegment(s) == Some(seg)
    ensures Send(s, seg).synSent && Data(Send(s, seg), Send(s, seg).next) == Data(s, s.next + 1)
  {
    var s' := Send(s, seg);
    assert s'.next == s.next + 1 && s'.stream == s.stream;
    assert Pieces(s', s'.next) == Pieces(s, s.next + 1);
  }

  // ---------------------------------------------------------------- and queues and tracks it

  /** `f` is `s` with the segments of `more` sent: queued in order, tracked under their numbers, and counted. */
  ghost predicate HasSent(s: Sender, f: Sender, more: seq<TCPSegment>) {
    && f.queue == s.queue + more
    && f.outstanding == s.outstanding + Numbered(more, s.next)
    && f.next == s.next + Span(more)
  }

  lemma SentThen(s: Sender, seg: TCPSegment, f: Sender, more: seq<TCPSegment>)
    requires more != [] && more[0] == seg && HasSent(Send(s, seg), f, more[1..])
    ensures HasSent(s, f, more)
  {
    hide Length, HeaderAt;
    assert more == [seg] + more[1..];
    MergesThen(s.outstanding, s.next, seg, Numbered(more[1..], s.next + Length(seg)));
  }

  lemma MergesThen(m: Outstanding, k: nat, seg: TCPSegment, rest: Outstanding)
    ensures m[k := seg] + rest == m + (map[k := seg] + rest)
  {
  }

  /** The loop sends exactly what is planned; all of it leaves through the queue, and all of it is tracked. */
  lemma {:induction false} FillSends(s: Sender)
    requires CoreInv(s)
    ensures HasSent(s, FillWindow(s), Planned(s))
    decreases WindowRight(s) - s.next
  {
    hide CoreInv, Planned, HasSent, NextSegment;
    KnownCounts(s);
    match NextSegment(s)
    case None =>
      NothingPlanned(s);
      SentNothing(s);
    case Some(seg) =>
      NextSegmentFits(s);
      SendInv(s, seg);
      FillSends(Send(s, seg));
      FirstIsPlanned(s, seg);
      RestIsPlanned(s, seg);
      SentThen(s, seg, FillWindow(s), Planned(s));
  }

  lemma KnownCounts(s: Sender)
    requires CoreInv(s)
    ensures Counts(s)
  {
  }

  lemma SentNothing(s: Sender)
    ensures HasSent(s, s, [])
  {
    assert s.queue + [] == s.queue;
  }

  lemma {:induction false} NumberedAreSent(segs: seq<TCPSegment>, from: nat)
    ensures forall k :: k in Numbered(segs, from) ==> Numbered(segs, from)[k] in segs
    decreases |segs|
  {
    if segs != [] { NumberedAreSent(segs[1..], from + Length(segs[0])); }
  }

  /** So a segment that filling tracks is among those it has put on the queue, and these make up the step of `next`. */
  lemma TrackedIsQueued(s: Sender)
    requires CoreInv(s)
    ensures var f := FillWindow(s);
      && s.queue <= f.queue && Span(f.queue[|s.queue|..]) == f.next - s.next
      && forall k :: k in f.outstanding && k !in s.outstanding ==> f.outstanding[k] in f.queue[|s.queue|..]
  {
    FillSends(s);
    NumberedAreSent(Planned(s), s.next);
    assert FillWindow(s).queue[|s.queue|..] == Planned(s);
  }

  /** No segment is shorter than it must be: one that is not full empties the buffer or reaches the window's end. */
  lemma PiecesAreFull(s: Sender, i: nat)
    requires i < Pieces(s, s.next)
    ensures |Piece(s, s.next, i).payload| <= 1000
    ensures |Piece(s, s.next, i).payload| < 1000 ==> i == Pieces(s, s.next) - 1
  {
  }

  // ---------------------------------------------------------------- acknowledgments

  /** The sender once the acknowledgment has been taken in: the peer's window, its number, and what is still out. */
  function TakenIn(s: Sender, absolute: U64, window: U16): Sender {
    s.(window := window, ackno := Max(s.ackno, absolute),
       outstanding := map k | k in s.outstanding && absolute < k + Length(s.outstanding[k]) :: s.outstanding[k])
  }

  /** Nothing more may be sent: the window is used up, or all is sent, and the FIN too if the stream is over. */
  predicate UsesWindow(s: Sender, window: U16) {
    || s.next >= s.ackno + Max(window, 1)
    || (s.synSent && s.stream.read == |s.stream.all| && (s.finSent || !s.stream.ended))
  }

  lemma PlannedIgnoresTimer(s: Sender, t: Sender)
    requires t.isn == s.isn && t.next == s.next && t.ackno == s.ackno && t.window == s.window
    requires t.stream == s.stream && t.synSent == s.synSent && t.finSent == s.finSent
    ensures Planned(t) == Planned(s)
  {
    hide Wrap;
    Same(s, t, s.next);
    Same(s, t, s.next + 1);
  }

  lemma Same(s: Sender, t: Sender, from: nat)
    requires t.isn == s.isn && t.ackno == s.ackno && t.window == s.window
    requires t.stream == s.stream && t.finSent == s.finSent
    ensures Data(t, from) == Data(s, from)
  {
    hide Wrap;
  }

  /**
   * An acceptable acknowledgment: its window is the window from then on, its number is taken, the segments it covers
   * are gone, and what the new window allows is sent at once, queued and tracked.
   */
  lemma AckExactly(s: Sender, ackno: U32, window: U16)
    requires SenderInv(s) && Unwrap(ackno, s.isn, s.ackno) <= s.next
    ensures var r, taken := AckReceived(s, ackno, window), TakenIn(s, Unwrap(ackno, s.isn, s.ackno), window);
      && r.window == window && r.ackno == taken.ackno
      && HasSent(taken, r, Planned(taken)) && UsesWindow(r, window)
  {
    hide SenderInv, CoreInv, Planned, Numbered, Span, NextSegment, FillWindow;
    var absolute := Unwrap(ackno, s.isn, s.ackno);
    var a := Acked(s, absolute, window);
    AckedInv(s, absolute, window);
    FillInv(a);
    FillSends(a);
    FillIsMaximal(a);
    PlannedIgnoresTimer(a, TakenIn(s, absolute, window));
  }
}
