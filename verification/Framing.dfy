/** Length-prefixed frames over a byte stream (lab6: server.cpp, func.cpp). */
module Framing {
  import opened Words

  datatype Message = Message(kind: Byte, payload: seq<Byte>)

  const HEADER: nat := 3
  const DISCONNECT: Byte := 7

  /** What `SendPacket` puts on the stream; the length is cut to 16 bits, the payload is not. */
  function Encode(m: Message): seq<Byte> {
    var len := |m.payload| % 0x1_0000;
    [m.kind, len / 256, len % 256] + m.payload
  }

  function EncodeAll(ms: seq<Message>): seq<Byte> {
    if ms == [] then [] else Encode(ms[0]) + EncodeAll(ms[1..])
  }

  predicate Fits(m: Message) { |m.payload| < 0x1_0000 }

  function Concat(chunks: seq<seq<Byte>>): seq<Byte> {
    if chunks == [] then [] else Concat(chunks[..|chunks| - 1]) + chunks[|chunks| - 1]
  }

  function LengthField(hi: Byte, lo: Byte): nat { 256 * hi + lo }

  /** The length of the frame at the front, its header included. */
  function FrameLength(buffer: seq<Byte>): nat
    requires |buffer| >= HEADER
  {
    HEADER + LengthField(buffer[1], buffer[2])
  }

  predicate Complete(buffer: seq<Byte>) { |buffer| >= HEADER && |buffer| >= FrameLength(buffer) }

  function FrontMessage(buffer: seq<Byte>): Message
    requires Complete(buffer)
  {
    Message(buffer[0], buffer[HEADER..FrameLength(buffer)])
  }

  /** The complete frames at the front of a buffer, and what stays in it. */
  function DecodeAll(buffer: seq<Byte>): (seq<Message>, seq<Byte>)
    decreases |buffer|
  {
    if !Complete(buffer) then ([], buffer)
    else
      var (ms, rest) := DecodeAll(buffer[FrameLength(buffer)..]);
      ([FrontMessage(buffer)] + ms, rest)
  }

  // ---------------------------------------------------------------- the two directions

  lemma LengthBytes(hi: Byte, lo: Byte)
    ensures LengthField(hi, lo) < 0x1_0000 && LengthField(hi, lo) / 256 == hi && LengthField(hi, lo) % 256 == lo
  {
  }

  lemma EncodeWith(m: Message, hi: Byte, lo: Byte)
    requires |m.payload| == LengthField(hi, lo)
    ensures Fits(m) && Encode(m) == [m.kind, hi, lo] + m.payload
  {
    hide LengthField;
    LengthBytes(hi, lo);
    assert |m.payload| % 0x1_0000 == |m.payload|;
  }

  lemma FrontAgain(buffer: seq<Byte>)
    requires Complete(buffer)
    ensures Fits(FrontMessage(buffer)) && Encode(FrontMessage(buffer)) + buffer[FrameLength(buffer)..] == buffer
  {
    hide LengthField, Encode, Fits;
    var m, n := FrontMessage(buffer), FrameLength(buffer);
    EncodeWith(m, buffer[1], buffer[2]);
    assert [buffer[0], buffer[1], buffer[2]] == buffer[..HEADER];
    assert buffer[..HEADER] + buffer[HEADER..n] + buffer[n..] == buffer;
  }

  /** The frames and the rest make up the buffer, and no whole frame stays. */
  predicate Faithful(buffer: seq<Byte>, ms: seq<Message>, rest: seq<Byte>) {
    EncodeAll(ms) + rest == buffer && !Complete(rest) && forall m :: m in ms ==> Fits(m)
  }

  lemma FaithfulThen(buffer: seq<Byte>, ms: seq<Message>, rest: seq<Byte>)
    requires Complete(buffer) && Faithful(buffer[FrameLength(buffer)..], ms, rest)
    ensures Faithful(buffer, [FrontMessage(buffer)] + ms, rest)
  {
    hide Encode, FrontMessage, Fits, LengthField;
    var m := FrontMessage(buffer);
    FrontAgain(buffer);
    assert ([m] + ms)[1..] == ms;
    assert Encode(m) + EncodeAll(ms) + rest == Encode(m) + (EncodeAll(ms) + rest);
  }

  /** Nothing is lost or invented: the frames found and what stays make up the buffer, and no whole frame stays. */
  lemma {:induction false} DecodeIsFaithful(buffer: seq<Byte>)
    ensures var (ms, rest) := DecodeAll(buffer);
            && EncodeAll(ms) + rest == buffer && !Complete(rest)
            && forall m :: m in ms ==> Fits(m)
    decreases |buffer|
  {
    hide Encode, FrontMessage, Fits, LengthField, EncodeAll;
    if Complete(buffer) {
      var next := buffer[FrameLength(buffer)..];
      DecodeIsFaithful(next);
      FaithfulThen(buffer, DecodeAll(next).0, DecodeAll(next).1);
    } else {
      NothingDecoded(buffer);
    }
  }

  lemma NothingDecoded(buffer: seq<Byte>)
    ensures EncodeAll([]) + buffer == buffer
  {
  }

  /** A frame in front of anything is taken off whole. */
  lemma DecodeFrame(m: Message, rest: seq<Byte>)
    requires Fits(m)
    ensures Complete(Encode(m) + rest)
    ensures FrontMessage(Encode(m) + rest) == m
    ensures DecodeAll(Encode(m) + rest) == ([m] + DecodeAll(rest).0, DecodeAll(rest).1)
  {
    var b := Encode(m) + rest;
    assert b[HEADER..FrameLength(b)] == m.payload;
    assert b[FrameLength(b)..] == rest;
  }

  /** Frames come out as they went in, up to a tail that is no whole frame yet. */
  lemma {:induction false} DecodeEncoded(ms: seq<Message>, tail: seq<Byte>)
    requires forall m :: m in ms ==> Fits(m)
    requires !Complete(tail)
    ensures DecodeAll(EncodeAll(ms) + tail) == (ms, tail)
    decreases |ms|
  {
    if ms == [] {
      assert EncodeAll(ms) + tail == tail;
    } else {
      assert EncodeAll(ms) + tail == Encode(ms[0]) + (EncodeAll(ms[1..]) + tail);
      DecodeEncoded(ms[1..], tail);
      DecodeFrame(ms[0], EncodeAll(ms[1..]) + tail);
      assert [ms[0]] + ms[1..] == ms;
    }
  }

  /** On the wire: the type, the length in two bytes, the high one first, as far as they hold it, and the payload. */
  lemma FrameLayout(m: Message)
    ensures var b := Encode(m);
      && |b| == 3 + |m.payload| && b[0] == m.kind && b[3..] == m.payload
      && Word(b[1], b[2]) == |m.payload| % 65536
  {
  }

  /** One message is read back if and only if its length fits the two length bytes. */
  lemma RoundTripIff(m: Message)
    ensures DecodeAll(Encode(m)) == ([m], []) <==> Fits(m)
  {
    if Fits(m) {
      assert EncodeAll([m]) == Encode(m) + [];
      assert EncodeAll([m]) + [] == Encode(m);
      DecodeEncoded([m], []);
    } else {
      DecodeIsFaithful(Encode(m));
      assert m in [m];
    }
  }

  /** What the other side makes of a payload that is too long: it is cut, and the excess is read as further frames. */
  lemma LongPayloadIsCut(m: Message)
    ensures var cut := |m.payload| % 0x1_0000;
            DecodeAll(Encode(m)) ==
            ([Message(m.kind, m.payload[..cut])] + DecodeAll(m.payload[cut..]).0, DecodeAll(m.payload[cut..]).1)
  {
    var cut := |m.payload| % 0x1_0000;
    var front := Message(m.kind, m.payload[..cut]);
    assert Encode(m) == Encode(front) + m.payload[cut..];
    DecodeFrame(front, m.payload[cut..]);
  }

  // ---------------------------------------------------------------- arrival in pieces

  /** Decoding what is there, and going on with the rest once more has come, is decoding everything at once. */
  lemma {:induction false} DecodeInTwo(a: seq<Byte>, b: seq<Byte>)
    ensures var (ms, rest) := DecodeAll(a);
            DecodeAll(a + b) == (ms + DecodeAll(rest + b).0, DecodeAll(rest + b).1)
    decreases |a|
  {
    if !Complete(a) {
      assert [] + DecodeAll(a + b).0 == DecodeAll(a + b).0;
    } else {
      var n := FrameLength(a);
      DecodeInTwo(a[n..], b);
      assert FrameLength(a + b) == n;
      assert (a + b)[n..] == a[n..] + b;
      assert (a + b)[HEADER..n] == a[HEADER..n];
      var (ms, rest) := DecodeAll(a[n..]);
      assert [FrontMessage(a)] + (ms + DecodeAll(rest + b).0) == ([FrontMessage(a)] + ms) + DecodeAll(rest + b).0;
    }
  }

  /** One `recv` after another: the messages handled so far and the buffer. */
  function Run(chunks: seq<seq<Byte>>): (seq<Message>, seq<Byte>) {
    if chunks == [] then ([], [])
    else
      var (ms, buffer) := Run(chunks[..|chunks| - 1]);
      var (more, rest) := DecodeAll(buffer + chunks[|chunks| - 1]);
      (ms + more, rest)
  }

  /** How the stream is cut into chunks does not matter. */
  lemma {:induction false} ChunkingIsInvisible(chunks: seq<seq<Byte>>)
    ensures Run(chunks) == DecodeAll(Concat(chunks))
    decreases |chunks|
  {
    if chunks != [] {
      ChunkingIsInvisible(chunks[..|chunks| - 1]);
      DecodeInTwo(Concat(chunks[..|chunks| - 1]), chunks[|chunks| - 1]);
    }
  }

  /**
   * Where the decoder stands when part of a stream of frames has come: `k` frames done, and a proper part of the
   * next.
   */
  ghost predicate Standing(ms: seq<Message>, k: nat, rest: seq<Byte>, arrived: seq<Byte>) {
    && k <= |ms|
    && EncodeAll(ms[..k]) + rest == arrived
    && if k == |ms| then rest == [] else rest < Encode(ms[k])
  }

  /**
   * However a stream of frames is cut, the frames handled at any moment are the first ones sent, in order and whole.
   */
  lemma FramesInOrder(ms: seq<Message>, chunks: seq<seq<Byte>>) returns (k: nat)
    requires forall m :: m in ms ==> Fits(m)
    requires Concat(chunks) <= EncodeAll(ms)
    ensures k <= |ms| && Run(chunks).0 == ms[..k]
    ensures Standing(ms, k, Run(chunks).1, Concat(chunks))
    ensures Concat(chunks) == EncodeAll(ms) ==> k == |ms|
  {
    ChunkingIsInvisible(chunks);
    k := FindStanding(ms, Concat(chunks));
  }

  lemma ProperPartIsIncomplete(m: Message, part: seq<Byte>)
    requires Fits(m) && part < Encode(m)
    ensures !Complete(part)
  {
    if |part| >= HEADER {
      assert part[1] == Encode(m)[1] && part[2] == Encode(m)[2];
    }
  }

  lemma {:induction false} FindStanding(ms: seq<Message>, arrived: seq<Byte>) returns (k: nat)
    requires forall m :: m in ms ==> Fits(m)
    requires arrived <= EncodeAll(ms)
    ensures k <= |ms| && Standing(ms, k, DecodeAll(arrived).1, arrived)
    ensures DecodeAll(arrived).0 == ms[..k]
    ensures arrived == EncodeAll(ms) ==> k == |ms|
    decreases |ms|, 1
  {
    hide Encode, Complete, FrontMessage, Standing, DecodeAll;
    if ms == [] {
      NothingSent(arrived);
      assert ms[..0] == ms;
      return 0;
    }
    if |arrived| < |Encode(ms[0])| {
      StandingAtStart(ms, arrived);
      return 0;
    }
    var j := FindStandingRest(ms, arrived);
    k := j + 1;
    assert ms[..k] == [ms[0]] + ms[1..][..j];
  }

  lemma FindStandingRest(ms: seq<Message>, arrived: seq<Byte>) returns (j: nat)
    requires (forall m :: m in ms ==> Fits(m)) && ms != []
    requires arrived <= EncodeAll(ms) && |arrived| >= |Encode(ms[0])|
    ensures j < |ms| && Standing(ms, j + 1, DecodeAll(arrived).1, arrived)
    ensures DecodeAll(arrived).0 == [ms[0]] + ms[1..][..j]
    ensures arrived == EncodeAll(ms) ==> j + 1 == |ms|
    decreases |ms|, 0
  {
    hide Encode, Complete, FrontMessage, Standing, DecodeAll;
    var first := Encode(ms[0]);
    var more := arrived[|first|..];
    PrefixTail(first, EncodeAll(ms[1..]), arrived);
    j := FindStanding(ms[1..], more);
    DecodeFrame(ms[0], more);
    StandingStep(ms, j, DecodeAll(more).1, more);
  }

  lemma NothingSent(arrived: seq<Byte>)
    requires arrived == []
    ensures DecodeAll(arrived) == ([], []) && Standing([], 0, [], arrived)
  {
  }

  lemma StandingAtStart(ms: seq<Message>, arrived: seq<Byte>)
    requires ms != [] && Fits(ms[0]) && arrived <= EncodeAll(ms) && |arrived| < |Encode(ms[0])|
    ensures DecodeAll(arrived) == ([], arrived) && Standing(ms, 0, arrived, arrived)
  {
    hide Encode;
    assert arrived == EncodeAll(ms)[..|arrived|] == Encode(ms[0])[..|arrived|];
    assert ms[..0] == [];
    ProperPartIsIncomplete(ms[0], arrived);
    assert EncodeAll(ms[..0]) + arrived == arrived;
  }

  lemma PrefixTail(first: seq<Byte>, rest: seq<Byte>, arrived: seq<Byte>)
    requires arrived <= first + rest && |first| <= |arrived|
    ensures arrived == first + arrived[|first|..]
    ensures arrived[|first|..] <= rest
    ensures arrived == first + rest ==> arrived[|first|..] == rest
  {
    assert arrived == (first + rest)[..|arrived|];
    assert arrived[|first|..] == rest[..|arrived| - |first|];
  }

  lemma StandingStep(ms: seq<Message>, j: nat, rest: seq<Byte>, more: seq<Byte>)
    requires ms != [] && Standing(ms[1..], j, rest, more)
    ensures Standing(ms, j + 1, rest, Encode(ms[0]) + more)
  {
    hide Encode;
    assert ms[..j + 1][1..] == ms[1..][..j];
    assert Encode(ms[0]) + (EncodeAll(ms[1..][..j]) + rest) == EncodeAll(ms[..j + 1]) + rest;
  }

  // ---------------------------------------------------------------- the server stops at DISCONNECT

  /** The messages up to the first request to disconnect, which is type 7, that one included. */
  function UpToDisconnect(ms: seq<Message>): seq<Message> {
    if ms == [] then [] else if ms[0].kind == 7 then [ms[0]] else [ms[0]] + UpToDisconnect(ms[1..])
  }

  predicate Stays(ms: seq<Message>) { forall m :: m in ms ==> m.kind != 7 }

  /** The server's loop returns in the middle of the buffer when it meets that request. */
  function Serve(buffer: seq<Byte>): (seq<Message>, seq<Byte>, bool)
    decreases |buffer|
  {
    if !Complete(buffer) then ([], buffer, true)
    else
      var next := buffer[FrameLength(buffer)..];
      if buffer[0] == DISCONNECT then ([FrontMessage(buffer)], next, false)
      else
        var (ms, rest, open) := Serve(next);
        ([FrontMessage(buffer)] + ms, rest, open)
  }

  lemma {:induction false} ServeIsDecode(buffer: seq<Byte>)
    ensures var (ms, rest, open) := Serve(buffer);
            && ms == UpToDisconnect(DecodeAll(buffer).0)
            && (open <==> Stays(DecodeAll(buffer).0))
            && (open ==> ms == DecodeAll(buffer).0 && rest == DecodeAll(buffer).1)
    decreases |buffer|
  {
    if Complete(buffer) {
      var next := buffer[FrameLength(buffer)..];
      ServeIsDecode(next);
      var all := DecodeAll(buffer).0;
      assert all[0] == FrontMessage(buffer) && all[1..] == DecodeAll(next).0;
      assert Stays(all) <==> all[0].kind != DISCONNECT && Stays(all[1..]) by {
        assert forall m :: m in all <==> m == all[0] || m in all[1..];
      }
    }
  }

  /** One `recv` after another at the server: handled, buffer, and whether it still listens. */
  function ServerRun(chunks: seq<seq<Byte>>): (seq<Message>, seq<Byte>, bool) {
    if chunks == [] then ([], [], true)
    else
      var (ms, buffer, open) := ServerRun(chunks[..|chunks| - 1]);
      if !open then (ms, buffer, open)
      else
        var (more, rest, still) := Serve(buffer + chunks[|chunks| - 1]);
        (ms + more, rest, still)
  }

  lemma StaysConcat(a: seq<Message>, b: seq<Message>)
    ensures Stays(a + b) <==> Stays(a) && Stays(b)
  {
    assert forall m :: m in a + b <==> m in a || m in b;
  }

  lemma {:induction false} UpToConcat(a: seq<Message>, b: seq<Message>)
    ensures UpToDisconnect(a + b) == if Stays(a) then a + UpToDisconnect(b) else UpToDisconnect(a)
    ensures Stays(a) ==> UpToDisconnect(a) == a
    decreases |a|
  {
    if a == [] {
      assert a + b == b;
    } else {
      assert (a + b)[1..] == a[1..] + b && a == [a[0]] + a[1..];
      StaysConcat([a[0]], a[1..]);
      UpToConcat(a[1..], b);
      assert [a[0]] + (a[1..] + UpToDisconnect(b)) == [a[0]] + a[1..] + UpToDisconnect(b);
    }
  }

  /**
   * For the server too the chunks are invisible: it handles the frames sent up to the first DISCONNECT, and no more.
   */
  lemma {:induction false} ServerChunkingIsInvisible(chunks: seq<seq<Byte>>)
    ensures var (ms, buffer, open) := ServerRun(chunks);
            && ms == UpToDisconnect(DecodeAll(Concat(chunks)).0)
            && (open <==> Stays(DecodeAll(Concat(chunks)).0))
            && (open ==> buffer == DecodeAll(Concat(chunks)).1)
    decreases |chunks|
  {
    if chunks != [] {
      var before, last := chunks[..|chunks| - 1], chunks[|chunks| - 1];
      ServerChunkingIsInvisible(before);
      DecodeInTwo(Concat(before), last);
      var (ms, rest) := DecodeAll(Concat(before));
      ServeIsDecode(rest + last);
      UpToConcat(ms, DecodeAll(rest + last).0);
      StaysConcat(ms, DecodeAll(rest + last).0);
    }
  }

  // ---------------------------------------------------------------- the loops

  method Frame(kind: Byte, payload: seq<Byte>) returns (packet: seq<Byte>)
    ensures packet == Encode(Message(kind, payload))
  {
    var payloadLen := |payload| % 0x1_0000;
    packet := [];
    packet := packet + [kind];
    packet := packet + [payloadLen / 256 % 256];
    packet := packet + [payloadLen % 256];
    packet := packet + payload;
  }

  /** The client's receive loop. */
  class Client {
    var recvBuffer: seq<Byte>

    constructor ()
      ensures recvBuffer == []
    {
      recvBuffer := [];
    }

    method OnRecv(chunk: seq<Byte>) returns (handled: seq<Message>)
      modifies this
      ensures (handled, recvBuffer) == DecodeAll(old(recvBuffer) + chunk)
    {
      recvBuffer := recvBuffer + chunk;
      handled := [];
      ghost var whole := recvBuffer;
      assert forall ms: seq<Message> :: handled + ms == ms;
      while |recvBuffer| >= HEADER
        invariant DecodeAll(whole) == (handled + DecodeAll(recvBuffer).0, DecodeAll(recvBuffer).1)
        decreases |recvBuffer|
      {
        var payloadLen := LengthField(recvBuffer[1], recvBuffer[2]);
        if |recvBuffer| < HEADER + payloadLen {
          break;
        }
        var m := Message(recvBuffer[0], recvBuffer[HEADER..][..payloadLen]);
        assert m == FrontMessage(recvBuffer);
        assert handled + ([m] + DecodeAll(recvBuffer[HEADER + payloadLen..]).0) ==
               (handled + [m]) + DecodeAll(recvBuffer[HEADER + payloadLen..]).0;
        recvBuffer := recvBuffer[HEADER + payloadLen..];
        handled := handled + [m];
      }
      assert handled + [] == handled;
    }
  }

  /** The server's thread for one client. */
  class Server {
    var recvBuffer: seq<Byte>
    var running: bool

    constructor ()
      ensures recvBuffer == [] && running
    {
      recvBuffer, running := [], true;
    }

    method OnRecv(chunk: seq<Byte>) returns (handled: seq<Message>)
      requires running
      modifies this
      ensures (handled, recvBuffer, running) == Serve(old(recvBuffer) + chunk)
    {
      recvBuffer := recvBuffer + chunk;
      handled := [];
      ghost var whole := recvBuffer;
      assert forall ms: seq<Message> :: handled + ms == ms;
      while |recvBuffer| >= HEADER
        invariant running
        invariant var (ms, rest, open) := Serve(recvBuffer); Serve(whole) == (handled + ms, rest, open)
        decreases |recvBuffer|
      {
        var payloadLen := LengthField(recvBuffer[1], recvBuffer[2]);
        if |recvBuffer| < HEADER + payloadLen {
          break;
        }
        var m := Message(recvBuffer[0], recvBuffer[HEADER..][..payloadLen]);
        assert m == FrontMessage(recvBuffer);
        assert forall ms :: handled + ([m] + ms) == (handled + [m]) + ms;
        recvBuffer := recvBuffer[HEADER + payloadLen..];
        handled := handled + [m];
        if m.kind == DISCONNECT {
          running := false;
          return;
        }
      }
      assert handled + [] == handled;
    }
  }
}
