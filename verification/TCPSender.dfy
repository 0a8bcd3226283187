/** The sender object (tcp_sender.hh, tcp_sender.cc): its timer, its map of outstanding segments and its queue. */
module TCPSenders {
  import opened Words
  import opened TCPConfig
  import opened WrappingIntegers
  import opened OrderedMaps
  import opened ByteStreams
  import opened TCPSegments
  import opened Sending
  import F = Fillings

  /** One round of the fill loop. */
  ghost predicate SentNext(s: Sender, s': Sender) {
    && NextSegment(s).Some? && s' == Send(s, NextSegment(s).value)
    && s.next < s'.next && WindowRight(s') == WindowRight(s)
  }

  lemma FillUnfold(s: Sender)
    ensures s.next >= WindowRight(s) ==> NextSegment(s).None?
    ensures NextSegment(s).None? ==> FillWindow(s) == s
    ensures forall s' :: SentNext(s, s') ==> FillWindow(s) == FillWindow(s')
  {
  }

  lemma NothingToSend(s: Sender)
    requires s.next < WindowRight(s) && s.synSent && PayloadSize(s) == 0 && (!Eof(s.stream) || s.finSent)
    ensures NextSegment(s).None?
  {
  }

  /** The data segment the fill loop sends when the buffer is not empty. */
  lemma DataIsNext(s: Sender, fin: bool)
    requires s.next < WindowRight(s) && s.synSent && PayloadSize(s) > 0
    requires var n := PayloadSize(s); fin <==> !s.finSent && Eof(Pop(s.stream, n)) && s.next + n < WindowRight(s)
    ensures var seg := TCPSegment(HeaderAt(s).(fin := fin), Peek(s.stream, PayloadSize(s)));
            SentNext(s, Send(s, seg)) && (fin ==> NextSegment(Send(s, seg)).None?)
  {
    NextSegmentFits(s);
  }

  /** The erasing loop has looked at the keys below `done`: of those, the acknowledged are gone. */
  ghost predicate Swept(was: Outstanding, m: Outstanding, done: nat, absolute: nat) {
    && (forall k :: k in m <==> k in was && (done <= k || absolute < k + Length(was[k])))
    && (forall k :: k in m ==> m[k] == was[k])
  }

  ghost function Ahead(m: Outstanding, done: nat): set<nat> { set k | k in m && done <= k }

  lemma SweepBegins(m: Outstanding, absolute: nat)
    ensures Swept(m, m, 0, absolute)
  {
  }

  lemma SweepStep(was: Outstanding, m: Outstanding, done: nat, k: nat, absolute: nat)
    requires Swept(was, m, done, absolute) && CeilKey(m, done) == Some(k)
    ensures k in was
    ensures var m' := if k + Length(m[k]) <= absolute then m - {k} else m;
            Swept(was, m', k + 1, absolute) && Ahead(m', k + 1) < Ahead(m, done)
  {
    assert k in Ahead(m, done) && k !in Ahead(m, k + 1) && k !in Ahead(m - {k}, k + 1);
  }

  lemma SweepEnds(was: Outstanding, m: Outstanding, done: nat, absolute: nat)
    requires Swept(was, m, done, absolute) && CeilKey(m, done) == None
    ensures m == Unacked(was, absolute)
  {
  }

  class TCPSender {
    const isn: U32
    const initialRto: U16
    const stream: ByteStream
    var next: nat
    var ackno: U64
    var window: U16
    var outstanding: Outstanding
    var queue: seq<TCPSegment>
    var rto: U32
    var timer: U32
    var running: bool
    var retx: U32
    var synSent: bool
    var finSent: bool
    ghost var log: map<nat, nat>

    ghost predicate Valid()
      reads this, stream
    {
      stream.Valid() && SenderInv(Model())
    }

    ghost function Model(): Sender
      requires stream.Valid()
      reads this, stream
    {
      Sender(isn, initialRto, stream.Model(), next, ackno, window, outstanding, queue,
             rto, timer, running, retx, synSent, finSent, log)
    }

    constructor (capacity: nat, rto: U16, isn: U32)
      ensures Valid() && fresh(stream) && Model() == NewSender(capacity, rto, isn)
    {
      this.isn, initialRto := isn, rto;
      stream := new ByteStream(capacity);
      next, ackno, window, outstanding, queue, log := 0, 0, 1, map[], [], map[];
      this.rto, timer, running, retx, synSent, finSent := rto, 0, false, 0, false, false;
      new;
      NewInv(capacity, rto, isn);
    }

    /** `bytes_in_flight`: add up the map in key order. */
    method BytesInFlight() returns (total: nat)
      requires Valid()
      ensures total == InFlight(outstanding)
    {
      total := 0;
      var rest := outstanding;
      var pos := CeilKey(rest, 0);
      while pos.Some?
        invariant pos == CeilKey(rest, 0)
        invariant total + InFlight(rest) == InFlight(outstanding)
        decreases |rest|
      {
        RemoveShrinks(rest, pos.value);
        total := total + Length(rest[pos.value]);
        rest := rest - {pos.value};
        pos := CeilKey(rest, 0);
      }
    }

    /** Track and queue a segment whose flags and payload are already accounted for. */
    method Track(seg: TCPSegment)
      modifies this`timer, this`running, this`next, this`outstanding, this`queue, this`log
      ensures timer == (if old(outstanding) == map[] then 0 else old(timer))
      ensures running == (old(running) || old(outstanding) == map[])
      ensures next == old(next) + Length(seg)
      ensures outstanding == old(outstanding)[old(next) := seg]
      ensures queue == old(queue) + [seg]
      ensures log == old(log)[old(next) := Length(seg)]
    {
      if outstanding == map[] {
        timer := 0;
        running := true;
      }
      var start := next;
      next := next + Length(seg);
      outstanding := outstanding[start := seg];
      log := log[start := Length(seg)];
      queue := queue + [seg];
    }

    method SendSyn()
      requires stream.Valid() && next < WindowRight(Model()) && !synSent
      modifies this
      ensures stream.Valid() && SentNext(old(Model()), Model())
    {
      var seg := TCPSegment(DEFAULT_HEADER.(syn := true, seqno := Wrap(next, isn)), []);
      synSent := true;
      Track(seg);
    }

    method SendFin()
      requires stream.Valid() && next < WindowRight(Model()) && synSent
      requires PayloadSize(Model()) == 0 && Eof(stream.Model()) && !finSent
      modifies this
      ensures stream.Valid() && SentNext(old(Model()), Model()) && NextSegment(Model()).None?
    {
      var seg := TCPSegment(DEFAULT_HEADER.(seqno := Wrap(next, isn), fin := true), []);
      finSent := true;
      Track(seg);
    }

    /** A data segment, with the FIN on it when the stream is done and the window has room for it. */
    method SendData(payloadSize: nat, right: nat) returns (fin: bool)
      requires stream.Valid() && right == WindowRight(Model()) && next < right && synSent
      requires payloadSize == PayloadSize(Model()) > 0
      modifies this, stream
      ensures stream.Valid() && SentNext(old(Model()), Model()) && (fin ==> NextSegment(Model()).None?)
    {
      hide NextSegment, SentNext;
      ghost var before := Model();
      var header := DEFAULT_HEADER.(seqno := Wrap(next, isn));
      var payload := stream.Read(payloadSize);
      if !finSent && stream.AtEof() {
        if next + Length(TCPSegment(header, payload)) < right {
          header := header.(fin := true);
          finSent := true;
        }
      }
      fin := header.fin;
      Track(TCPSegment(header, payload));
      PeekLength(before.stream, payloadSize);
      DataIsNext(before, fin);
    }

    static lemma PeekLength(s: Stream, n: nat)
      requires n <= BufferSize(s)
      ensures |Peek(s, n)| == n
    {
    }

    method Fill()
      requires stream.Valid()
      modifies this, stream
      ensures stream.Valid() && Model() == FillWindow(old(Model()))
    {
      hide NextSegment, FillWindow, Send;
      var effective := if window == 0 then 1 else window;
      var right := ackno + effective;
      ghost var start := Model();
      while next < right
        invariant stream.Valid() && right == WindowRight(Model())
        invariant FillWindow(Model()) == FillWindow(start)
        decreases right - next
      {
        ghost var before := Model();
        FillUnfold(before);
        if !synSent {
          SendSyn();
          continue;
        }
        var payloadSize := Min(Min(right - next, MAX_PAYLOAD_SIZE), |stream.buffer|);
        if payloadSize == 0 && stream.AtEof() && !finSent {
          SendFin();
          break;
        }
        if payloadSize == 0 {
          NothingToSend(before);
          break;
        }
        var fin := SendData(payloadSize, right);
        if fin {
          break;
        }
      }
      FillUnfold(Model());
    }

    /** Between calls: what goes on the queue is exactly what is planned. */
    method FillValid()
      requires Valid()
      modifies this, stream
      ensures Valid() && Model() == FillWindow(old(Model()))
      ensures queue == old(queue) + F.Planned(old(Model()))
    {
      hide CoreInv, F.Planned, FillWindow;
      FillKeepsTimer(Model());
      F.FillSends(Model());
      Fill();
    }

    /** The erasing loop: drop every segment whose end the acknowledgment has reached. */
    method EraseAcked(absolute: U64) returns (ackedSomething: bool)
      modifies this`outstanding
      ensures outstanding == Unacked(old(outstanding), absolute)
      ensures ackedSomething == (outstanding != old(outstanding))
    {
      hide Unacked, Swept, Ahead;
      ackedSomething := false;
      var pos := CeilKey(outstanding, 0);
      ghost var was := outstanding;
      ghost var done: nat := 0;
      ghost var gone: nat := 0;
      SweepBegins(was, absolute);
      while pos.Some?
        invariant pos == CeilKey(outstanding, done)
        invariant Swept(was, outstanding, done, absolute)
        invariant if ackedSomething then gone in was && gone !in outstanding else outstanding == was
        decreases Ahead(outstanding, done)
      {
        var k: nat := pos.value;
        SweepStep(was, outstanding, done, k, absolute);
        if k + Length(outstanding[k]) <= absolute {
          outstanding := outstanding - {k};
          ackedSomething := true;
          gone := k;
        }
        done := k + 1;
        pos := CeilKey(outstanding, k + 1);
      }
      SweepEnds(was, outstanding, done, absolute);
    }

    /** The bookkeeping of an acceptable acknowledgment, before the window is filled again. */
    method TakeAck(absolute: U64, peerWindow: U16)
      requires stream.Valid()
      modifies this
      ensures stream.Valid() && Model() == Acked(old(Model()), absolute, peerWindow)
    {
      hide Unacked;
      window := peerWindow;
      var ackedSomething := EraseAcked(absolute);
      if ackedSomething {
        timer := 0;
        rto := initialRto;
        retx := 0;
      }
      if absolute > ackno {
        ackno := absolute;
      }
    }

    method AckReceivedFromPeer(peerAckno: U32, peerWindow: U16)
      requires Valid()
      modifies this, stream
      ensures Valid() && Model() == AckReceived(old(Model()), peerAckno, peerWindow)
      ensures window == if Unwrap(peerAckno, isn, old(ackno)) <= old(next) then peerWindow else old(window)
    {
      hide SenderInv, FillWindow, Acked, Unwrap;
      AckInv(Model(), peerAckno, peerWindow);
      var absolute := Unwrap(peerAckno, isn, ackno);
      if absolute > next {
        return;
      }
      TakeAck(absolute, peerWindow);
      Fill();
      if outstanding == map[] {
        running := false;
      }
    }

    method TimePasses(ms: nat)
      requires Valid()
      modifies this
      ensures Valid() && Model() == Tick(old(Model()), ms)
    {
      hide SenderInv;
      TickInv(Model(), ms);
      if running {
        timer := (timer + ms) % TWO32;
        if timer >= rto {
          if outstanding != map[] {
            Resend();
          }
        }
      }
    }

    /** Queue the oldest outstanding segment again; back off unless the peer's window is closed. */
    method Resend()
      requires outstanding != map[]
      modifies this`timer, this`queue, this`rto, this`retx
      ensures timer == 0 && queue == old(queue) + [outstanding[CeilKey(outstanding, 0).value]]
      ensures rto == (if window > 0 then old(rto) * 2 % TWO32 else old(rto)) && retx == (old(retx) + 1) % TWO32
    {
      timer := 0;
      var first := CeilKey(outstanding, 0).value;
      queue := queue + [outstanding[first]];
      if window > 0 {
        rto := rto * 2 % TWO32;
        retx := (retx + 1) % TWO32;
      } else {
        retx := (retx + 1) % TWO32;
      }
    }

    method SendEmptySegment()
      requires Valid()
      modifies this
      ensures Valid() && Model() == SendEmpty(old(Model()))
    {
      SendEmptyInv(Model());
      queue := queue + [TCPSegment(DEFAULT_HEADER.(seqno := Wrap(next, isn)), [])];
    }
  }
}
