/**
 * The order in which datagrams for one next hop leave an interface (network_interface.cc). It is not always the order
 * in which they were handed over: an ARP request teaches the cache and leaves the queue waiting.
 */
module HopOrder {
  import opened Words
  import opened Interfaces
  import A = ARP
  import IP = IPv4

  /** What was handed over for `hop`, in order. */
  function HandedSeq(log: seq<Entry>, hop: U32): seq<IP.IPv4Datagram> {
    if log == [] then []
    else
      var last := log[|log| - 1].what;
      HandedSeq(log[..|log| - 1], hop) + (if last.Handed? && last.hop == hop then [last.dgram] else [])
  }

  /** What was framed for `hop`, in order. */
  function FramedSeq(log: seq<Entry>, hop: U32): seq<IP.IPv4Datagram> {
    if log == [] then []
    else
      var last := log[|log| - 1].what;
      FramedSeq(log[..|log| - 1], hop) + (if last.Framed? && last.hop == hop then [last.dgram] else [])
  }

  /** First in, first out: what was framed, and then what waits, is what was handed over. */
  predicate InOrder(n: Interface, hop: U32) {
    HandedSeq(n.log, hop) == FramedSeq(n.log, hop) + Waiting(n, hop)
  }

  /** Handing `d` over for `hop` now would send it ahead of a different datagram that waits for the same hop. */
  predicate Overtakes(n: Interface, d: IP.IPv4Datagram, hop: U32) {
    && hop in n.cache && DatagramFrame(n.address, n.cache[hop].address, d).Some?
    && Waiting(n, hop) + [d] != [d] + Waiting(n, hop)
  }

  lemma OneEntry(log: seq<Entry>, e: Entry, hop: U32)
    ensures HandedSeq(log + [e], hop) ==
        HandedSeq(log, hop) + (if e.what.Handed? && e.what.hop == hop then [e.what.dgram] else [])
    ensures FramedSeq(log + [e], hop) ==
        FramedSeq(log, hop) + (if e.what.Framed? && e.what.hop == hop then [e.what.dgram] else [])
  {
    Appended(log, e);
  }

  lemma OtherEntry(log: seq<Entry>, e: Entry, hop: U32)
    requires !(e.what.Handed? && e.what.hop == hop) && !(e.what.Framed? && e.what.hop == hop)
    ensures HandedSeq(log + [e], hop) == HandedSeq(log, hop) && FramedSeq(log + [e], hop) == FramedSeq(log, hop)
  {
    OneEntry(log, e, hop);
    assert HandedSeq(log, hop) + [] == HandedSeq(log, hop) && FramedSeq(log, hop) + [] == FramedSeq(log, hop);
  }

  lemma WaitKeepsOrder(n: Interface, d: IP.IPv4Datagram, h: U32, hop: U32)
    requires InOrder(n, hop)
    ensures InOrder(Wait(n, h, d), hop)
  {
    var e := Entry(n.clock, Handed(h, d));
    if h == hop {
      OneEntry(n.log, e, hop);
      assert FramedSeq(n.log, hop) + [] == FramedSeq(n.log, hop);
      assert FramedSeq(n.log, hop) + (Waiting(n, hop) + [d]) == HandedSeq(n.log, hop) + [d];
    } else {
      OtherEntry(n.log, e, hop);
    }
  }

  /** A datagram framed at once is in order exactly if it could as well have waited. */
  lemma FrameNowInOrderIff(n: Interface, d: IP.IPv4Datagram, hop: U32, frame: A.EthernetFrame)
    requires InOrder(n, hop)
    ensures InOrder(FrameNow(n, hop, d, frame), hop) <==> Waiting(n, hop) + [d] == [d] + Waiting(n, hop)
  {
    var e, f := Entry(n.clock, Handed(hop, d)), Entry(n.clock, Framed(hop, d, frame));
    OneEntry(n.log, e, hop);
    OneEntry(n.log + [e], f, hop);
    var framed, waiting := FramedSeq(n.log, hop), Waiting(n, hop);
    var m := FrameNow(n, hop, d, frame);
    assert FramedSeq(m.log, hop) == framed + [d];
    assert HandedSeq(m.log, hop) == framed + (waiting + [d]);
    assert FramedSeq(m.log, hop) + Waiting(m, hop) == framed + ([d] + waiting);
    SamePrefix(framed, waiting + [d], [d] + waiting);
  }

  lemma SamePrefix<T>(p: seq<T>, a: seq<T>, b: seq<T>)
    ensures p + a == p + b <==> a == b
  {
    assert (p + a)[|p|..] == a && (p + b)[|p|..] == b;
  }

  /** Sending keeps the order of a hop if and only if it does not overtake there. */
  lemma SendKeepsOrderIff(n: Interface, d: IP.IPv4Datagram, h: U32, hop: U32)
    requires InOrder(n, hop)
    ensures InOrder(Send(n, d, h).0, hop) <==> !(h == hop && Overtakes(n, d, hop))
  {
    hide DatagramFrame;
    if h in n.cache {
      var f := DatagramFrame(n.address, n.cache[h].address, d);
      if f.Some? {
        if h == hop {
          FrameNowInOrderIff(n, d, hop, f.value);
        } else {
          var e := Entry(n.clock, Handed(h, d));
          OtherEntry(n.log, e, hop);
          OtherEntry(n.log + [e], Entry(n.clock, Framed(h, d, f.value)), hop);
        }
      }
    } else {
      WaitKeepsOrder(n, d, h, hop);
      var w := Wait(n, h, d);
      OtherEntry(w.log, Entry(n.clock, Asked(h, RequestFrame(n.address, n.ip, h))), hop);
    }
  }

  lemma Regroup<T>(a: seq<T>, b: seq<T>, c: seq<T>)
    ensures a + (b + c) == a + b + c
  {
  }

  lemma FrameFirstKeepsOrder(n: Interface, h: U32, frame: A.EthernetFrame, hop: U32)
    requires h in n.pending && n.pending[h] != [] && InOrder(n, hop)
    ensures InOrder(FrameFirst(n, h, frame), hop)
  {
    hide HandedSeq, FramedSeq;
    var d := n.pending[h][0];
    var e := Entry(n.clock, Framed(h, d, frame));
    if h == hop {
      OneEntry(n.log, e, hop);
      var handed, framed, rest := HandedSeq(n.log, hop), FramedSeq(n.log, hop), n.pending[h][1..];
      assert n.pending[h] == [d] + rest;
      Regroup(framed, [d], rest);
      assert handed + [] == handed;
    } else {
      OtherEntry(n.log, e, hop);
    }
  }

  /** A flush sends from the front of the queue, so it keeps every order. */
  lemma {:induction false} FlushKeepsOrder(n: Interface, dst: A.EthernetAddress, h: U32, hop: U32)
    requires InOrder(n, hop)
    ensures InOrder(Flush(n, dst, h).0, hop)
    decreases |Waiting(n, h)|
  {
    hide DatagramFrame, HandedSeq, FramedSeq;
    if h in n.pending && n.pending[h] != [] {
      var f := DatagramFrame(n.address, dst, n.pending[h][0]);
      if f.Some? {
        FrameFirstKeepsOrder(n, h, f.value, hop);
        FlushKeepsOrder(FrameFirst(n, h, f.value), dst, h, hop);
      }
    }
  }

  lemma ReceiveKeepsOrder(n: Interface, frame: A.EthernetFrame, hop: U32)
    requires InOrder(n, hop)
    ensures InOrder(Receive(n, frame).0, hop)
  {
    hide MessageIn, DatagramIn, HandedSeq, FramedSeq;
    match MessageIn(n, frame)
    case None =>
    case Some(msg) =>
      var heard := Hear(n, msg);
      OtherEntry(n.log, Entry(n.clock, Heard(msg)), hop);
      assert InOrder(heard, hop);
      OtherEntry(heard.log, Entry(n.clock, Replied(ReplyFrame(n.address, n.ip, msg))), hop);
      FlushKeepsOrder(heard, msg.senderEthernet, msg.senderIp, hop);
  }

  // ---------------------------------------------------------------- runs

  predicate CallOvertakes(n: Interface, c: Call, hop: U32) {
    c.SendCall? && c.hop == hop && Overtakes(n, c.d, hop)
  }

  /** Of all calls only a send can break the order of a hop, and exactly when it overtakes. */
  lemma CallKeepsOrderIff(n: Interface, c: Call, hop: U32)
    requires InOrder(n, hop)
    ensures InOrder(Apply(n, c), hop) <==> !CallOvertakes(n, c, hop)
  {
    hide Overtakes, HandedSeq, FramedSeq, Send, Receive;
    match c
    case SendCall(d, h) => SendKeepsOrderIff(n, d, h, hop);
    case FrameCall(frame) => ReceiveKeepsOrder(n, frame, hop);
    case TickCall(ms) =>
    case PopCall =>
  }

  ghost predicate AlwaysInOrder(n: Interface, calls: seq<Call>, hop: U32) {
    forall k :: 0 <= k <= |calls| ==> InOrder(Run(n, calls[..k]), hop)
  }

  ghost predicate NeverOvertakes(n: Interface, calls: seq<Call>, hop: U32) {
    forall k :: 0 <= k < |calls| ==> !CallOvertakes(Run(n, calls[..k]), calls[k], hop)
  }

  /**
   * Over every run of a new interface, datagrams for a hop leave in the order in which they were handed over if and
   * only if none was sent while a different one still waited there.
   */
  lemma {:induction false} OrderIffNeverOvertakes(address: A.EthernetAddress, ip: U32, calls: seq<Call>, hop: U32)
    ensures AlwaysInOrder(New(address, ip), calls, hop) <==> NeverOvertakes(New(address, ip), calls, hop)
    decreases |calls|
  {
    hide InOrder, CallOvertakes, Apply;
    var n := New(address, ip);
    if calls == [] {
      StartsInOrder(address, ip, hop);
    } else {
      var init, last := calls[..|calls| - 1], calls[|calls| - 1];
      OrderIffNeverOvertakes(address, ip, init, hop);
      assert forall k :: 0 <= k <= |init| ==> calls[..k] == init[..k];
      assert init[..|init|] == init && calls[..|calls|] == calls;
      assert AlwaysInOrder(n, calls, hop) <==> AlwaysInOrder(n, init, hop) && InOrder(Run(n, calls), hop) by {
        assert calls[..|calls|] == calls;
      }
      assert NeverOvertakes(n, calls, hop) <==>
        NeverOvertakes(n, init, hop) && !CallOvertakes(Run(n, init), last, hop) by {
        assert calls[..|init|] == init;
      }
      if AlwaysInOrder(n, init, hop) {
        assert InOrder(Run(n, init[..|init|]), hop);
        CallKeepsOrderIff(Run(n, init), last, hop);
      }
    }
  }

  lemma StartsInOrder(address: A.EthernetAddress, ip: U32, hop: U32)
    ensures InOrder(New(address, ip), hop) && Run(New(address, ip), []) == New(address, ip)
  {
  }

  /**
   * The order is really lost: a datagram waits, an ARP request of its hop arrives, and the next datagram goes out
   * first.
   */
  lemma RequestLetsOvertake(address: A.EthernetAddress, ip: U32, hop: U32, peer: A.EthernetAddress, target: U32,
                            first: IP.IPv4Datagram, second: IP.IPv4Datagram)
    requires first != second && IP.SerializeDatagram(second).Some?
    ensures var calls := [SendCall(first, hop), FrameCall(RequestFrame(peer, hop, target)), SendCall(second, hop)];
            var n := Run(New(address, ip), calls);
            && !InOrder(n, hop) && FramedSeq(n.log, hop) == [second] && Waiting(n, hop) == [first]
  {
    var a, b, c := SendCall(first, hop), FrameCall(RequestFrame(peer, hop, target)), SendCall(second, hop);
    var n0 := New(address, ip);
    var n1, n2 := Send(n0, first, hop).0, Receive(Send(n0, first, hop).0, b.frame).0;
    RunOfThree(n0, a, b, c);
    StartsInOrder(address, ip, hop);
    SendKeepsOrderIff(n0, first, hop, hop);
    ReceiveKeepsOrder(n1, b.frame, hop);
    RequestTeaches(n1, peer, hop, target);
    SendKeepsOrderIff(n2, second, hop, hop);
    FirstWaits(address, ip, hop, first);
    SecondLeaves(n2, second, hop);
    assert [first] + [second] != [second] + [first] by { assert ([first] + [second])[0] != ([second] + [first])[0]; }
  }

  lemma RunOfThree(n: Interface, a: Call, b: Call, c: Call)
    ensures Run(n, [a, b, c]) == Apply(Apply(Apply(n, a), b), c)
  {
    hide Apply;
    assert [a][..0] == [] && Run(n, [a]) == Apply(n, a);
    assert [a, b][..1] == [a] && Run(n, [a, b]) == Apply(Apply(n, a), b);
    assert [a, b, c][..2] == [a, b];
  }

  lemma RequestTeaches(n: Interface, peer: A.EthernetAddress, hop: U32, target: U32)
    ensures var m := Receive(n, RequestFrame(peer, hop, target)).0;
            && hop in m.cache && m.cache[hop].address == peer && m.pending == n.pending && m.address == n.address
            && FramedSeq(m.log, hop) == FramedSeq(n.log, hop)
  {
    hide A.Bytes, A.Parse, HandedSeq, FramedSeq;
    var msg := A.Message(A.OPCODE_REQUEST, peer, hop, A.NO_ADDRESS, target);
    A.RoundTrip(msg, []);
    OtherEntry(n.log, Entry(n.clock, Heard(msg)), hop);
    OtherEntry(Hear(n, msg).log, Entry(n.clock, Replied(ReplyFrame(n.address, n.ip, msg))), hop);
  }

  lemma FirstWaits(address: A.EthernetAddress, ip: U32, hop: U32, d: IP.IPv4Datagram)
    ensures var n := Send(New(address, ip), d, hop).0; Waiting(n, hop) == [d] && FramedSeq(n.log, hop) == []
  {
    var w := Wait(New(address, ip), hop, d);
    OneEntry([], Entry(0, Handed(hop, d)), hop);
    assert w.log == [] + [Entry(0, Handed(hop, d))];
    OtherEntry(w.log, Entry(0, Asked(hop, RequestFrame(address, ip, hop))), hop);
  }

  lemma OtherFramed(log: seq<Entry>, e: Entry, hop: U32)
    requires e.what.Handed?
    ensures FramedSeq(log + [e], hop) == FramedSeq(log, hop)
  {
    OneEntry(log, e, hop);
    assert FramedSeq(log, hop) + [] == FramedSeq(log, hop);
  }

  lemma SecondLeaves(n: Interface, d: IP.IPv4Datagram, hop: U32)
    requires hop in n.cache && IP.SerializeDatagram(d).Some? && FramedSeq(n.log, hop) == []
    ensures var m := Send(n, d, hop).0; FramedSeq(m.log, hop) == [d] && Waiting(m, hop) == Waiting(n, hop)
  {
    hide IP.SerializeDatagram, FramedSeq, HandedSeq;
    var e := Entry(n.clock, Handed(hop, d));
    var f := Entry(n.clock, Framed(hop, d, DatagramFrame(n.address, n.cache[hop].address, d).value));
    OtherFramed(n.log, e, hop);
    OneEntry(n.log + [e], f, hop);
    assert [] + [d] == [d];
  }
}
